/** The sender's loop over its packet buffer. */
module SenderClass {
  import opened Bytes
  import opened Common
  import opened Crc
  import opened Ring
  import opened PacketSpec
  import opened PacketClass
  import opened Datagrams
  import opened Layout
  import opened Exchange
  import S = SenderSpec

  /** One round of `adapt_buffer` is one place of the slide. */
  lemma SlideByOne(s: S.Sender, num: byte)
    requires S.InRange(s) && s.smallSeq != num
    ensures var t := s.(smallSeq := (s.smallSeq + 1) % 256, smallInd := (s.smallInd + 1) % s.window);
            && S.InRange(t) && S.Slide(t, num) == S.Slide(s, num)
            && Distance(t.smallSeq, num) == Distance(s.smallSeq, num) - 1
  {
    NextDistance(s.smallSeq, num);
    ModAdd(s.smallInd + 1, Distance(s.smallSeq, num) - 1, s.window);
    hide Distance;
  }

  lemma NextDistance(from: int, num: byte)
    requires 0 <= from < 256 && from != num
    ensures Distance((from + 1) % 256, num) == Distance(from, num) - 1
  {
  }

  lemma SlideByNone(s: S.Sender, num: byte)
    requires S.InRange(s) && s.smallSeq == num
    ensures S.Slide(s, num) == s
  {
    SlotSmall(s.smallInd, s.window);
  }

  lemma RefusedIsIgnored(s: S.Sender, d: Decoded)
    requires S.InRange(s) && d.Refused?
    ensures TakeAnswer(s, d) == s
  {
  }

  /** Each slot of the buffer is empty, or points to a packet of its own whose
      bytes are those of the view. */
  ghost predicate Keeps(buffer: array<Packet?>, slots: seq<Option<S.Stored>>, kept: set<Packet>,
                        payloads: set<array<byte>>)
    reads buffer, kept, payloads
  {
    buffer.Length == |slots| && forall i :: 0 <= i < |slots| ==> Holds(buffer[i], slots[i], kept, payloads)
  }

  ghost predicate Holds(p: Packet?, slot: Option<S.Stored>, kept: set<Packet>, payloads: set<array<byte>>)
    reads kept, payloads
  {
    if p == null then slot.None?
    else
      && p in kept && p.Valid() && p.kind == PTYPE_DATA && p.tr == 0 && p.GetLength() > 0 && p.payload in payloads
      && slot == Some(S.Stored(p.seqnum, p.window, p.payload[..p.GetLength()]))
  }

  /** The packet that every block is sent in, with the initial window of 1. */
  method DataPacketOfOne() returns (p: Packet)
    ensures fresh(p) && p.kind == PTYPE_DATA && p.tr == 0 && p.window == 1 && p.payload == null
  {
    p := new Packet();
    var status := p.SetWindow(1);
  }

  class Sender {
    var window: int
    var smallSeq: int
    var smallInd: int
    var seqExp: int
    var seqInd: nat
    var started: bool
    var endFile: bool
    const buffer: array<Packet?>
    const pktSend: Packet
    const pktAck: Packet
    const packetEncoded: array<byte>
    ghost var view: S.Sender
    ghost var kept: set<Packet>
    ghost var payloads: set<array<byte>>

    ghost predicate Valid()
      reads this, buffer, pktSend, kept, payloads
    {
      && buffer.Length == MAX_WINDOW_SIZE && packetEncoded.Length == DATAGRAM_SIZE
      && S.InRange(view) && view.window == window && view.smallSeq == smallSeq && view.smallInd == smallInd
      && view.seqExp == seqExp && view.seqInd == seqInd && view.started == started
      && S.Sendable(view.buffer)
      && pktSend != pktAck && pktSend !in kept && pktAck !in kept && packetEncoded !in payloads
      && pktSend.kind == PTYPE_DATA && pktSend.tr == 0 && pktSend.window == window && pktSend.payload != packetEncoded
      && Keeps(buffer, view.buffer, kept, payloads)
    }

    constructor ()
      ensures Valid() && fresh(buffer) && fresh(packetEncoded) && fresh(pktSend) && fresh(pktAck)
      ensures view == S.INITIAL && !endFile
    {
      hide Swap16, Swap32;
      buffer := new Packet?[MAX_WINDOW_SIZE](i => null);
      packetEncoded := new byte[DATAGRAM_SIZE];
      var send := DataPacketOfOne();
      pktSend := send;
      pktAck := new Packet();
      window, smallSeq, smallInd, seqExp, seqInd, started, endFile := 1, 0, 0, 0, 0, false, false;
      view := S.INITIAL;
      kept, payloads := {}, {};
    }

    /** The test that decides whether the file is read. */
    method MayRead() returns (may: bool)
      requires Valid()
      ensures may == (!endFile && S.MayRead(view))
    {
      var isNotFull := seqExp - smallSeq < window;
      may := !endFile && (!started || isNotFull);
    }

    /** A block was read: keep a copy of the packet in the buffer and send it. */
    method SendBlock(data: Block, now: word32) returns (bytes: seq<byte>)
      requires Valid() && 1 <= |data| <= MAX_PAYLOAD_SIZE
      modifies this`view, this`kept, this`payloads, this`seqExp, this`seqInd, this`started
      modifies buffer, pktSend, packetEncoded
      ensures Valid() && view == S.Send(old(view), data)
      ensures bytes == Encode(DataPacket(old(view).seqExp, old(view).window, data, now))
      ensures SentAs(bytes, old(window), old(seqExp), data, now)
    {
      hide SentAs, Encode, Slot, Swap16, Swap32, Crc32, Header, Keeps, S.Sendable;
      FillPacket(data);
      KeepCopy(data);
      bytes := Transmit(data, now);
      started := true;
      seqExp := (seqExp + 1) % 256;
      seqInd := seqInd + 1;
      view := S.Send(old(view), data);
    }

    /** Encode and send the packet that was filled in. */
    method Transmit(ghost data: Block, now: word32) returns (bytes: seq<byte>)
      requires Valid() && pktSend.Valid() && pktSend.View() == DataPacket(seqExp, window, data, pktSend.timestamp)
      modifies pktSend`timestamp, pktSend`crc1, pktSend`crc2, packetEncoded
      ensures Valid() && bytes == Encode(DataPacket(seqExp, window, data, now))
      ensures SentAs(bytes, window, seqExp, data, now)
    {
      hide SentAs, PacketAt, Encode, Swap16, Swap32, Crc32, Header, Keeps, S.Sendable;
      DataBytes(seqExp, window, data, now);
      var status, len := pktSend.EncodeInto(packetEncoded, DATAGRAM_SIZE, now);
      bytes := packetEncoded[..len];
    }

    /** The packet that every new block is sent in. */
    method FillPacket(data: Block)
      requires Valid() && 1 <= |data| <= MAX_PAYLOAD_SIZE
      modifies pktSend
      ensures Valid() && pktSend.Valid() && pktSend.View() == DataPacket(seqExp, window, data, pktSend.timestamp)
    {
      hide Swap32, Keeps, S.Sendable;
      var status := pktSend.SetPayload(data, |data|);
      pktSend.seqnum := seqExp;
      assert data[..|data|] == data;
    }

    /** Put a copy of the packet into its slot; the copy shares the payload. */
    method KeepCopy(data: Block)
      requires Valid() && pktSend.Valid() && data != []
      requires pktSend.View() == DataPacket(seqExp, window, data, pktSend.timestamp)
      requires pktSend.payload != packetEncoded
      modifies this`view, this`kept, this`payloads, buffer
      ensures Valid()
      ensures var kept := S.Stored(seqExp, window, data);
              view == old(view).(buffer := old(view).buffer[Slot(seqInd, window) := Some(kept)])
    {
      hide Swap16, Swap32, Slot, Keeps, S.Sendable;
      var pktBuff := new Packet();
      pktSend.CopyTo(pktBuff);
      Put(Slot(seqInd, window), pktBuff);
    }

    /** Let slot `at` point to `p`. */
    method Put(at: nat, p: Packet)
      requires Valid() && at < MAX_WINDOW_SIZE && p != pktSend && p != pktAck && p.payload != packetEncoded
      requires p.Valid() && p.kind == PTYPE_DATA && p.tr == 0 && p.GetLength() > 0
      modifies this`view, this`kept, this`payloads, buffer
      ensures Valid()
      ensures view == old(view).(buffer := old(view).buffer[at := Some(S.Stored(p.seqnum, p.window, p.View().payload))])
    {
      hide Swap16;
      buffer[at] := p;
      kept, payloads := kept + {p}, payloads + {p.payload};
      view := view.(buffer := view.buffer[at := Some(S.Stored(p.seqnum, p.window, p.View().payload))]);
      forall i | 0 <= i < MAX_WINDOW_SIZE
        ensures Holds(buffer[i], view.buffer[i], kept, payloads)
      {
        if i != at {
          assert old(Holds(buffer[i], view.buffer[i], kept, payloads));
        }
      }
    }

    /** `adapt_buffer`: slide the window to the acknowledged number, one place at
        a time. */
    method AdaptBuffer(seqNum: byte)
      requires Valid()
      modifies this`view, this`smallSeq, this`smallInd
      ensures Valid() && view == S.Slide(old(view), seqNum)
    {
      hide S.Slide, Slot, Keeps, S.Sendable;
      while smallSeq != seqNum
        invariant Valid() && S.Slide(view, seqNum) == S.Slide(old(view), seqNum)
        decreases Distance(smallSeq, seqNum)
      {
        SlideByOne(view, seqNum);
        smallInd := (smallInd + 1) % window;
        smallSeq := (smallSeq + 1) % 256;
        view := view.(smallSeq := smallSeq, smallInd := smallInd);
      }
      SlideByNone(view, seqNum);
    }

    /** What happens to a packet that was decoded. */
    method Handle()
      requires Valid() && pktAck.Valid()
      modifies this`view, this`window, this`smallSeq, this`smallInd, pktSend
      ensures Valid() && view == TakeAnswer(old(view), Packet(pktAck.View()))
    {
      hide S.Slide, Keeps, S.Sendable;
      var num := pktAck.seqnum;
      if pktAck.window > window {
        window := pktAck.window;
        view := view.(window := window);
      }
      var status := pktSend.SetWindow(window);
      if pktAck.kind == PTYPE_ACK {
        AdaptBuffer(num);
      }
    }

    /** A datagram arrived: `got` tells whether it was decoded. */
    method TakeDatagram(dgram: seq<byte>) returns (got: bool)
      requires Valid() && 0 < |dgram| <= DATAGRAM_SIZE
      modifies this`view, this`window, this`smallSeq, this`smallInd, packetEncoded, pktAck, pktSend
      ensures Valid()
      ensures var d := Decode(old(dgram + packetEncoded[|dgram|..]), |dgram|);
              got == d.Packet? && (got ==> d.pkt.WellFormed()) && view == TakeAnswer(old(view), d)
    {
      hide Decode, StatusOf, TakeAnswer, Keeps, S.Sendable, S.InRange;
      CopyInto(packetEncoded, 0, dgram);
      assert packetEncoded[..] == dgram + old(packetEncoded[|dgram|..]) by {
        assert packetEncoded[..] == packetEncoded[0..|dgram|] + packetEncoded[|dgram|..];
      }
      var status := pktAck.DecodeFrom(packetEncoded, |dgram|);
      RefusedHasStatus(packetEncoded[..], |dgram|);
      got := status == PktOk;
      if got {
        Handle();
      } else {
        RefusedIsIgnored(view, Decode(packetEncoded[..], |dgram|));
      }
    }

    /** The timer ran out: send the packet in the oldest slot again. */
    method Retransmit(now: word32) returns (bytes: seq<byte>)
      requires Valid() && S.Oldest(view).Some?
      modifies packetEncoded, kept`timestamp, kept`crc1, kept`crc2
      ensures Valid() && unchanged(this) && bytes == Encode(Again(S.Oldest(view).value, now))
      ensures var kept := S.Oldest(view).value; SentAs(bytes, kept.window, kept.num, kept.block, now)
    {
      hide SentAs, PacketAt, Encode, Swap16, Swap32, Crc32, Header;
      var at := smallInd % window;
      assert Holds(buffer[at], view.buffer[at], kept, payloads);
      ghost var oldest := S.Oldest(view).value;
      assert buffer[at].View() == Again(oldest, buffer[at].timestamp);
      DataBytes(oldest.num, oldest.window, oldest.block, now);
      var status, len := buffer[at].EncodeInto(packetEncoded, DATAGRAM_SIZE, now);
      bytes := packetEncoded[..len];
      forall i | 0 <= i < MAX_WINDOW_SIZE
        ensures Holds(buffer[i], view.buffer[i], kept, payloads)
      {
        assert old(Holds(buffer[i], view.buffer[i], kept, payloads));
      }
    }

    /** One turn of the loop does to the variables and sends what `LoopTurn` says.
        `rest` is what stood in the buffer behind the datagram. */
    method Turn(fileReady: bool, data: Block, arrived: Option<seq<byte>>, now: word32)
      returns (sent: seq<byte>, unset: bool, ghost rest: seq<byte>)
      requires Valid() && !endFile && |data| <= MAX_PAYLOAD_SIZE
      requires arrived.Some? ==> 0 < |arrived.value| <= DATAGRAM_SIZE
      modifies this, buffer, pktSend, pktAck, packetEncoded, kept`timestamp, kept`crc1, kept`crc2
      ensures Valid() && (arrived.Some? ==> |arrived.value + rest| == DATAGRAM_SIZE)
      ensures var d := if arrived.Some? then Decode(arrived.value + rest, |arrived.value|) else Refused(ENoHeader);
              && (d.Packet? ==> d.pkt.WellFormed())
              && var r := LoopTurn(old(view), fileReady, data, d, now);
                 view == r.snd && sent == BytesOf(r.sent) && endFile == r.ended && unset == r.unset
    {
      hide Encode, Decode, Keeps, S.Send, S.Oldest, S.MayRead, TakeAnswer, Slot;
      sent, unset, rest := [], false, [];
      var isNotFull := MayRead();
      if fileReady && isNotFull {
        if data == [] {
          endFile := true;
        } else {
          sent := SendBlock(data, now);
        }
      }
      var got := false;
      ghost var before := view;
      if arrived.Some? {
        rest := packetEncoded[|arrived.value|..];
        got := TakeDatagram(arrived.value);
        if !got {
          RefusedIsIgnored(before, Decode(arrived.value + rest, |arrived.value|));
        }
      } else {
        RefusedIsIgnored(view, Refused(ENoHeader));
      }
      if !(fileReady && isNotFull && data != []) && !got {
        OldestHeld();
        if buffer[smallInd % window] == null {
          unset := true;
        } else {
          sent := Retransmit(now);
        }
      }
    }

    lemma OldestHeld()
      requires Valid()
      ensures 0 <= smallInd % window < buffer.Length
      ensures buffer[smallInd % window] == null <==> S.Oldest(view).None?
    {
      assert Holds(buffer[smallInd % window], view.buffer[smallInd % window], kept, payloads);
    }

    /** The zero-length packet after the last block. */
    method SendEnd(now: word32) returns (bytes: seq<byte>)
      requires Valid()
      modifies pktSend, packetEncoded
      ensures Valid() && bytes == Encode(DataPacket(seqExp, window, [], now))
      ensures SentAs(bytes, window, seqExp, [], now)
    {
      hide SentAs, Encode, Swap32, Crc32, Header, Keeps, S.Sendable;
      var status := pktSend.SetLength(0);
      pktSend.seqnum := seqExp;
      bytes := Transmit([], now);
    }
  }
}
