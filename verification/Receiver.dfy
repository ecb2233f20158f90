/** The receiver's loop over its two arrays. */
module ReceiverClass {
  import opened Bytes
  import opened Common
  import opened Ring
  import opened Crc
  import opened PacketSpec
  import opened PacketClass
  import opened Datagrams
  import opened Layout
  import opened Exchange
  import R = ReceiverSpec

  /** The slot of an accepted packet. */
  function SlotFor(r: R.Receiver, num: byte): nat
    requires R.Indexed(r) && R.Accepted(num, r.seqExp, |r.ring|)
  {
    var lifted: int := if num < r.seqExp then num + 256 else num;
    (r.index + (lifted - r.seqExp)) % |r.ring|
  }

  lemma SlotForExpected(r: R.Receiver, num: byte)
    requires R.Indexed(r) && R.Accepted(num, r.seqExp, |r.ring|)
    ensures SlotFor(r, num) < |r.ring| && (SlotFor(r, num) == r.index <==> num == r.seqExp)
  {
    var w, d := |r.ring|, (if num < r.seqExp then num + 256 else num) - r.seqExp;
    if r.index + d < w {
      SlotUnique(r.index + d, w, 0, r.index + d);
    } else {
      SlotUnique(r.index + d, w, 1, r.index + d - w);
    }
  }

  /** `p` is `q` with some pointers removed. */
  ghost predicate Cleared(p: seq<array?<byte>>, q: seq<array?<byte>>) {
    |p| == |q| && forall i :: 0 <= i < |p| ==> p[i] == null || p[i] == q[i]
  }

  /** What the slots point to after a packet with payload `p` and number `num`: the
      block in front is written at once, others are kept or dropped. */
  ghost predicate PointersAfter(before: R.Receiver, was: seq<array?<byte>>, now: seq<array?<byte>>, num: byte,
                                p: array<byte>)
    requires R.Indexed(before) && |was| == |before.ring|
  {
    if !R.Accepted(num, before.seqExp, |before.ring|) then now == was
    else if num != before.seqExp then SlotFor(before, num) < |was| && now == was[SlotFor(before, num) := p]
    else Cleared(now, was)
  }

  /** The number is in the window, and not the next one. */
  predicate KeptForLater(r: R.Receiver, num: byte) {
    R.Accepted(num, r.seqExp, |r.ring|) && num != r.seqExp
  }

  /** A payload that no slot points to yet is pointed to afterwards exactly if its
      packet is kept for later. */
  lemma PointedIffKept(before: R.Receiver, was: seq<array?<byte>>, now: seq<array?<byte>>, num: byte, p: array<byte>)
    requires R.Indexed(before) && |was| == |before.ring| && PointersAfter(before, was, now, num, p) && p !in was
    ensures p in now <==> KeptForLater(before, num)
    ensures forall i :: 0 <= i < |now| ==> now[i] == null || now[i] == p || now[i] in was
  {
    if KeptForLater(before, num) {
      assert now[SlotFor(before, num)] == p;
    }
  }

  /** `written` is the list of blocks handed to `write`, and `pointers` are the
      payloads that the filled slots point to. */
  class Receiver {
    const window: nat
    const bufferLen: array<int>
    const bufferPayload: array<array?<byte>>
    var index: int
    var seqExp: int
    var endFile: bool
    var written: seq<Block>
    const pktRcv: Packet
    const pktAck: Packet
    const packetEncoded: array<byte>
    ghost var view: R.Receiver
    ghost var payloads: set<array<byte>>
    ghost var pointers: seq<array?<byte>>

    ghost predicate Valid()
      reads this, bufferLen, bufferPayload, payloads, pktAck
    {
      && bufferLen.Length == MAX_WINDOW_SIZE && bufferPayload.Length == MAX_PAYLOAD_SIZE
      && packetEncoded.Length == DATAGRAM_SIZE && packetEncoded !in payloads
      && |view.ring| == |pointers| == window <= MAX_WINDOW_SIZE && R.Indexed(view)
      && view.index == index && view.seqExp == seqExp && view.ended == endFile && view.out == written
      && (forall i :: 0 <= i < window ==> Holds(i))
      && pktRcv != pktAck && pktAck.tr == 0 && pktAck.Valid()
    }

    /** Slot `i` holds what the view says: length -1 stands for an empty slot. */
    ghost predicate Holds(i: nat)
      requires i < bufferLen.Length && i < bufferPayload.Length && i < |view.ring| && i < |pointers|
      reads this, bufferLen, bufferPayload, payloads
    {
      if bufferLen[i] == -1 then view.ring[i].None? && pointers[i] == null
      else
        && pointers[i] == bufferPayload[i]
        && bufferPayload[i] != null && bufferPayload[i] in payloads
        && 0 <= bufferLen[i] <= bufferPayload[i].Length
        && view.ring[i] == Some(bufferPayload[i][..bufferLen[i]])
    }

    /** The slot of the next block is empty, as it is between two turns. */
    ghost predicate Ready()
      reads this, bufferLen, bufferPayload, payloads, pktAck
    {
      Valid() && R.Valid(view) && view.ring[view.index].None?
    }

    /** No filled slot points to a payload that was given back. */
    ghost predicate Safe()
      reads this, pktRcv
    {
      forall i :: 0 <= i < |pointers| ==> pointers[i] == null || pointers[i] !in pktRcv.released
    }

    /** A filled slot points to the payload of the last packet received. */
    ghost predicate Shares()
      reads this, pktRcv
    {
      pktRcv.payload != null && pktRcv.payload in pointers
    }

    /** `memset` is given a byte count: it fills slots 0 to 6 and three bytes of
        slot 7. The code's own window is 3. */
    constructor (window: nat)
      requires 1 <= window <= 7
      ensures Ready() && Safe() && !Shares() && fresh(bufferLen) && fresh(bufferPayload) && fresh(packetEncoded)
      ensures fresh(pktRcv) && fresh(pktAck)
      ensures view == R.Receiver(Nones(window), 0, 0, [], false)
    {
      this.window := window;
      bufferLen := new int[MAX_WINDOW_SIZE](i => if i < 7 then -1 else if i == 7 then 0xFF_FFFF else 0);
      bufferPayload := new array?<byte>[MAX_PAYLOAD_SIZE](i => null);
      index, seqExp, endFile, written := 0, 0, false, [];
      pktRcv := new Packet();
      pktAck := new Packet();
      packetEncoded := new byte[DATAGRAM_SIZE];
      view := R.Receiver(Nones(window), 0, 0, [], false);
      payloads, pointers := {}, seq(window, _ => null);
    }

    /** Let slot `i` hold the first `n` bytes of `p`. */
    method Put(i: nat, p: array<byte>, n: nat)
      requires Valid() && i < window && n <= p.Length && p != packetEncoded
      modifies this`view, this`payloads, this`pointers, bufferLen, bufferPayload
      ensures Valid() && view == old(view).(ring := old(view).ring[i := Some(p[..n])])
      ensures pointers == old(pointers)[i := p]
    {
      bufferLen[i] := n;
      bufferPayload[i] := p;
      payloads, pointers := payloads + {p}, pointers[i := p];
      view := view.(ring := view.ring[i := Some(p[..n])]);
      forall j | 0 <= j < window
        ensures Holds(j)
      {
        if j != i {
          assert old(Holds(j));
        }
      }
    }

    /** Put the packet just received into its slot, if its number is in the
        window. The slot takes over the packet's payload. */
    method AddBuffer(seqRcv: byte)
      requires Valid() && pktRcv.Valid() && pktRcv.GetLength() > 0 && pktRcv.payload != packetEncoded
      modifies this`view, this`payloads, this`pointers, bufferLen, bufferPayload
      ensures Valid() && view == R.AddBuffer(old(view), seqRcv, old(pktRcv.View()).payload)
      ensures pointers ==
              if R.Accepted(seqRcv, seqExp, window) then old(pointers)[SlotFor(old(view), seqRcv) := pktRcv.payload]
              else old(pointers)
    {
      if (seqRcv <= seqExp + window - 1 && seqRcv >= seqExp) ||
         (seqExp + window - 1 > 256 && seqRcv <= (seqExp + window - 1) % 256)
      {
        var lifted: int := seqRcv;
        if seqRcv < seqExp {
          lifted := lifted + 256;
        }
        var realInd := (index + (lifted - seqExp)) % window;
        Put(realInd, pktRcv.GetPayload(), pktRcv.GetLength());
      }
    }

    /** Write the slot at `index`, clear it, step on. */
    method Advance()
      requires Valid() && bufferLen[index] != -1
      modifies this`view, this`pointers, this`index, this`seqExp, this`written, bufferLen, bufferPayload
      ensures Valid() && old(view).ring[old(view).index].Some? && view == R.Advance(old(view))
      ensures pointers == old(pointers)[old(index) := null]
    {
      assert Holds(index);
      ghost var at := index;
      written := written + [bufferPayload[index][..bufferLen[index]]];
      bufferPayload[index] := null;
      bufferLen[index] := -1;
      view, pointers := R.Advance(view), pointers[index := null];
      index := (index + 1) % window;
      seqExp := (seqExp + 1) % 256;
      forall i | 0 <= i < window
        ensures Holds(i)
      {
        if i != at {
          assert old(Holds(i));
        }
      }
    }

    /** Write and clear the slots from `index` on, up to the first empty one. */
    method Drain()
      requires Valid()
      modifies this`view, this`pointers, this`index, this`seqExp, this`written, bufferLen, bufferPayload
      ensures Valid() && view.ring[view.index].None?
      ensures view == R.Drain(old(view)) && Cleared(pointers, old(pointers))
      ensures if old(view.ring[view.index].None?) then pointers == old(pointers) else pointers[old(index)] == null
    {
      assert Holds(index);
      while bufferLen[index] != -1
        invariant Valid() && R.Drain(view) == R.Drain(old(view)) && Cleared(pointers, old(pointers))
        invariant if old(view.ring[view.index].None?) then pointers == old(pointers) && index == old(index)
                  else pointers[old(index)] == null || index == old(index)
        invariant old(view.ring[view.index].None?) ==> bufferLen[index] == -1
        invariant old(view.ring[view.index].Some?) && bufferLen[index] == -1 ==> pointers[old(index)] == null
        decreases R.Filled(view.ring)
      {
        Advance();
      }
      assert Holds(index);
    }

    method FillAnswer(num: byte, kind: int, timeData: word32) returns (status: Status)
      requires Valid() && 2 <= kind <= 3 && 1 <= window
      modifies pktAck
      ensures Valid() && status == PktOk && pktAck.payload != null && fresh(pktAck.payload)
      ensures pktAck.View() == Reply(kind, num, window, timeData)
    {
      hide R.Indexed, Swap16, Swap32;
      pktAck.seqnum := num;
      status := pktAck.SetType(kind);
      pktAck.timestamp := timeData;
      status := pktAck.SetWindow(window);
      status := pktAck.SetPayload([], 0);
    }

    /** Encode an acknowledgement or a refusal; `seqNum + 1` is taken modulo 256. The
        timestamp asked for is set, and overwritten by the encoding. */
    method SendAck(seqNum: int, kind: int, timeData: word32, now: word32) returns (status: Status, bytes: seq<byte>)
      requires Valid() && -1 <= seqNum < 256 && 2 <= kind <= 3 && 1 <= window
      modifies pktAck
      ensures Valid() && status == PktOk && bytes == Encode(Reply(kind, (seqNum + 1) % 256, window, now))
      ensures |bytes| == 12 && Starts(bytes, 64 * kind + window, (seqNum + 1) % 256, 0, now)
    {
      hide Starts, PacketAt, Encode, R.Indexed, Swap16, Swap32, Crc32, Header;
      status := FillAnswer((seqNum + 1) % 256, kind, timeData);
      var buf := new byte[20];
      var len: nat;
      status, len := pktAck.EncodeInto(buf, 20, now);
      bytes := buf[..len];
      PacketStarts(Reply(kind, (seqNum + 1) % 256, window, now));
    }

    /** Keep the payload just received, and write what can be written. */
    method Keep(seqRcv: byte)
      requires Ready() && pktRcv.Valid() && pktRcv.GetLength() > 0 && pktRcv.payload != packetEncoded
      modifies this`view, this`payloads, this`pointers, this`index, this`seqExp, this`written
      modifies bufferLen, bufferPayload
      ensures Ready() && view == R.Receive(old(view), seqRcv, old(pktRcv.View()).payload)
      ensures PointersAfter(old(view), old(pointers), pointers, seqRcv, pktRcv.payload)
    {
      hide R.Drain, R.Valid, Slot, Swap16;
      R.ReceiveStaysValid(view, seqRcv, pktRcv.View().payload);
      if R.Accepted(seqRcv, seqExp, window) {
        SlotForExpected(view, seqRcv);
      }
      AddBuffer(seqRcv);
      Drain();
    }

    /** A data packet with a payload: keep it, and acknowledge. */
    method Store(seqRcv: byte, now: word32) returns (answer: seq<byte>)
      requires Ready() && pktRcv.Valid() && pktRcv.GetLength() > 0 && pktRcv.payload != packetEncoded
      modifies this`view, this`payloads, this`pointers, this`index, this`seqExp, this`written
      modifies bufferLen, bufferPayload, pktAck
      ensures Ready() && view == R.Receive(old(view), seqRcv, old(pktRcv.View()).payload)
      ensures answer == Encode(Reply(PTYPE_ACK, view.seqExp, |view.ring|, now))
      ensures PointersAfter(old(view), old(pointers), pointers, seqRcv, pktRcv.payload)
    {
      hide R.Receive, R.Valid, Encode, Starts, PointersAfter, Swap16;
      Keep(seqRcv);
      var status;
      status, answer := SendAck(seqExp - 1, PTYPE_ACK, pktRcv.timestamp, now);
    }

    /** What happens to a packet that was decoded. */
    method Handle(now: word32) returns (answer: seq<byte>)
      requires Ready() && !endFile && pktRcv.Valid() && (pktRcv.GetLength() > 0 ==> pktRcv.payload != packetEncoded)
      modifies this`view, this`payloads, this`pointers, this`index, this`seqExp, this`written, this`endFile
      modifies bufferLen, bufferPayload, pktAck
      ensures Ready()
      ensures var d := Packet(old(pktRcv.View()));
              view == Receive(old(view), d) && answer == BytesOf(Answer(old(view), d, now))
      ensures if pktRcv.kind == PTYPE_DATA && pktRcv.GetLength() > 0 then
                PointersAfter(old(view), old(pointers), pointers, pktRcv.seqnum, pktRcv.payload)
              else
                pointers == old(pointers)
    {
      hide R.Receive, Encode, PointersAfter;
      answer := [];
      if pktRcv.kind == PTYPE_DATA {
        var seqRcv := pktRcv.seqnum;
        if pktRcv.tr == 1 {
          var status;
          status, answer := SendAck(seqRcv, PTYPE_NACK, pktRcv.timestamp, now);
        } else {
          var lg := pktRcv.GetLength();
          if lg == 0 {
            endFile := true;
            view := view.(ended := true);
            assert forall i :: 0 <= i < window ==> old(Holds(i)) && Holds(i);
          } else {
            answer := Store(seqRcv, now);
          }
        }
      }
    }

    /** The first `len` bytes of the buffer were just read. */
    method Process(len: nat, now: word32) returns (answer: seq<byte>)
      requires Ready() && !endFile
      modifies this`view, this`payloads, this`pointers, this`index, this`seqExp, this`written, this`endFile
      modifies bufferLen, bufferPayload, pktRcv, pktAck
      ensures Ready()
      ensures var d := Decode(packetEncoded[..], len);
              view == Receive(old(view), d) && answer == BytesOf(Answer(old(view), d, now))
      ensures var d := Decode(packetEncoded[..], len);
              && (if Keepable(d) then
                    && pktRcv.payload != null
                    && PointersAfter(old(view), old(pointers), pointers, d.pkt.seqnum, pktRcv.payload)
                  else pointers == old(pointers))
              && pktRcv.released == old(pktRcv.released) +
                   if Releasing(d) && old(pktRcv.payload) != null then {old(pktRcv.payload)} else {}
      ensures if TakesPayload(packetEncoded[..], len) then fresh(pktRcv.payload)
              else pktRcv.payload == old(pktRcv.payload)
    {
      hide Decode, Encode, R.Receive, R.Indexed, Swap16, Swap32, PointersAfter, TakesPayload;
      answer := [];
      var status := pktRcv.DecodeFrom(packetEncoded, len);
      RefusedHasStatus(packetEncoded[..], len);
      if status == PktOk {
        answer := Handle(now);
      }
    }

    /** One turn of the loop in which the datagram `dgram` was read: the answer is
        empty if none is sent. The payloads in the slots stay allocated, unless a
        packet with TR set declares a length: then the last payload received is
        given back, even if a slot still points to it. A slot points to it exactly
        if the packet that brought it was kept for later. */
    method Turn(dgram: seq<byte>, now: word32) returns (answer: seq<byte>)
      requires Ready() && !endFile && |dgram| <= DATAGRAM_SIZE
      modifies this`view, this`payloads, this`pointers, this`index, this`seqExp, this`written, this`endFile
      modifies bufferLen, bufferPayload, packetEncoded, pktRcv, pktAck
      ensures Ready()
      ensures packetEncoded[..] == dgram + old(packetEncoded[|dgram|..])
      ensures var d := Decode(packetEncoded[..], |dgram|);
              && view == Receive(old(view), d) && answer == BytesOf(Answer(old(view), d, now))
              && AnswerIs(answer, packetEncoded[..], d.Packet?, window, |written|, now)
      ensures var d := Decode(packetEncoded[..], |dgram|);
              old(Safe()) ==> (Safe() <==> !(Releasing(d) && old(Shares())))
      ensures var d := Decode(packetEncoded[..], |dgram|);
              Shares() <==>
                if TakesPayload(packetEncoded[..], |dgram|) then Keepable(d) && KeptForLater(old(view), d.pkt.seqnum)
                else old(Shares())
    {
      hide Decode, Encode, R.Receive, R.Indexed, TakesPayload, PointersAfter, KeptForLater, AnswerIs, Receive, Answer;
      answer := [];
      CopyInto(packetEncoded, 0, dgram);
      assert packetEncoded[..] == packetEncoded[0..|dgram|] + packetEncoded[|dgram|..];
      AnswerBytes(view, packetEncoded[..], |dgram|, now);
      if |dgram| > 0 {
        answer := Process(|dgram|, now);
        ghost var d := Decode(packetEncoded[..], |dgram|);
        KeepableTakes(packetEncoded[..], |dgram|);
        if Keepable(d) {
          PointedIffKept(old(view), old(pointers), pointers, d.pkt.seqnum, pktRcv.payload);
        }
      } else {
        NothingIsRefused(packetEncoded[..]);
        RefusedIsIgnored(view, Decode(packetEncoded[..], 0), now);
      }
    }
  }

  /** A data packet with a payload. */
  predicate Keepable(d: Decoded) {
    d.Packet? && d.pkt.kind == PTYPE_DATA && d.pkt.Length() > 0
  }

  /** A packet with TR set that declares a length. */
  predicate Releasing(d: Decoded) {
    d.Packet? && d.pkt.tr == 1 && d.pkt.length > 0
  }

  lemma KeepableTakes(buf: seq<byte>, len: nat)
    requires Readable(buf, len)
    ensures Keepable(Decode(buf, len)) || Releasing(Decode(buf, len)) ==> TakesPayload(buf, len)
  {
  }

  lemma DecodesAs(p: Pkt, buf: seq<byte>)
    requires p.WellFormed() && |buf| >= DATAGRAM_SIZE && Encode(p) <= buf
    ensures Decode(buf, |Encode(p)|) == Packet(p)
  {
    DecodeIffEncoding(buf, |Encode(p)|, p);
  }

  /** The second block arrives before the first one and waits in its slot. */
  lemma SecondWaits(x: Block, now: word32)
    requires 1 <= |x| <= MAX_PAYLOAD_SIZE
    ensures var r, d := R.Receiver(Nones(3), 0, 0, [], false), Packet(DataPacket(1, 1, x, now));
            R.Indexed(r) && Keepable(d) && KeptForLater(r, 1) && !Receive(r, d).ended && Receive(r, d).out == []
  {
  }

  /** A turn on the encoding of a packet. */
  method TurnOn(r: Receiver, p: Pkt, now: word32) returns (answer: seq<byte>)
    requires r.Ready() && !r.endFile && p.WellFormed()
    modifies r`view, r`payloads, r`pointers, r`index, r`seqExp, r`written, r`endFile
    modifies r.bufferLen, r.bufferPayload, r.packetEncoded, r.pktRcv, r.pktAck
    ensures r.Ready() && r.view == Receive(old(r.view), Packet(p))
    ensures old(r.Safe()) ==> (r.Safe() <==> !(Releasing(Packet(p)) && old(r.Shares())))
    ensures Keepable(Packet(p)) ==> (r.Shares() <==> KeptForLater(old(r.view), p.seqnum))
  {
    hide Encode, Decode, Receive, KeptForLater, TakesPayload, R.Indexed;
    answer := r.Turn(Encode(p), now);
    DecodesAs(p, r.packetEncoded[..]);
    KeepableTakes(r.packetEncoded[..], |Encode(p)|);
  }

  /** An input on which a payload in use is given back: block number 1, and then a
      packet with TR set that declares five bytes. */
  method ReleaseInUse(x: Block, now: word32) returns (r: Receiver)
    requires 1 <= |x| <= MAX_PAYLOAD_SIZE
    ensures fresh(r) && r.Ready() && !r.Safe() && r.written == []
  {
    r := new Receiver(3);
    SecondWaits(x, now);
    hide KeptForLater, R.Indexed, R.Receive;
    var answer := TurnOn(r, DataPacket(1, 1, x, now), now);
    answer := TurnOn(r, Pkt(PTYPE_DATA, 1, 1, 2, 5, now, []), now);
  }

  lemma RefusedIsIgnored(r: R.Receiver, d: Decoded, now: word32)
    requires R.Indexed(r) && d.Refused?
    ensures Receive(r, d) == r && Answer(r, d, now) == None
  {
  }

  lemma NothingIsRefused(buf: seq<byte>)
    requires |buf| >= DATAGRAM_SIZE
    ensures Decode(buf, 0).Refused? && !TakesPayload(buf, 0)
  {
  }
}
