/** What becomes of the one burst in a payload that no checksum notices. */
module WrongPayload {
  import opened Bytes
  import opened Common
  import opened Ring
  import opened Crc
  import opened CrcBoundary
  import opened PacketSpec
  import opened Damage
  import opened Protocol
  import opened Datagrams
  import opened Transfer
  import ByteLimit
  import Layout
  import S = SenderSpec
  import R = ReceiverSpec
  import W = Wire

  lemma {:induction false} DrainKeeps(r: R.Receiver)
    requires R.Indexed(r)
    ensures r.out <= R.Drain(r).out
    decreases R.Filled(r.ring)
  {
    if r.ring[r.index].Some? {
      DrainKeeps(R.Advance(r));
    }
  }

  /** Whatever arrives under the number the receiver waits for is written next. */
  lemma WritesNext(r: R.Receiver, block: Block)
    requires R.Indexed(r)
    ensures var out := R.Receive(r, r.seqExp, block).out; r.out + [block] <= out
  {
    hide R.Drain, R.Filled;
    var r' := R.AddBuffer(r, r.seqExp, block);
    StoredNext(r, block);
    DrainKeeps(R.Advance(r'));
    assert R.Drain(r') == R.Drain(R.Advance(r')) by { DrainsOn(r'); }
  }

  lemma StoredNext(r: R.Receiver, block: Block)
    requires R.Indexed(r)
    ensures R.AddBuffer(r, r.seqExp, block) == r.(ring := r.ring[r.index := Some(block)])
  {
    SlotSmall(r.index, |r.ring|);
    assert (r.index + (r.seqExp - r.seqExp)) % |r.ring| == Slot(r.index, |r.ring|);
    assert R.Accepted(r.seqExp, r.seqExp, |r.ring|);
    hide R.Accepted, Slot;
  }

  lemma DrainsOn(r: R.Receiver)
    requires R.Indexed(r) && r.ring[r.index].Some?
    ensures R.Drain(r) == R.Drain(R.Advance(r))
  {
  }

  /** The pattern in the payload changes nothing but the payload. */
  lemma OtherPayload(p: Pkt, d: seq<byte>)
    requires p.WellFormed() && p.Length() >= 2 && Missed(Encode(p), d, 12 + p.Length())
    ensures var q := TakenFor(p, d);
            q == p.(payload := q.payload) && |q.payload| == |p.payload| && (q != p ==> q.payload != p.payload)
  {
    hide Encode, DiffersBy;
    var e, n := Encode(p), p.Length();
    MissedDiffers(e, d, 12 + n);
    assert d[10 + n] == d[10..][n] && e[10 + n] == e[10..][n];
  }

  /** The damage that the channels do is every burst that changes the bytes, unless it
      is taken for a packet that differs in more than its timestamp. */
  lemma AllowedIff(d: W.Datagram<Message>, bytes: seq<byte>, at: nat, rest: seq<byte>)
    requires d.intact && d.pkt.WellFormed() && d.bytes == Encode(d.pkt) && |d.bytes + rest| == DATAGRAM_SIZE
    requires Burst(d.bytes, bytes, at) && bytes != d.bytes
    ensures |bytes + rest| == DATAGRAM_SIZE
    ensures var r := Decode(bytes + rest, |bytes|);
            W.MayDamage(d, bytes, at) <==> r.Refused? || r.pkt == d.pkt.(timestamp := r.pkt.timestamp)
  {
    hide Encode, Decode, Missed, Readable, Burst;
    BurstLength(d.bytes, bytes, at);
    LongIsReadable(bytes + rest, |bytes|);
    Layout.EncodedIsLong(d.pkt);
    DamageIsNoticed(d.pkt, bytes, at, rest, |bytes|);
    if W.PayloadMissed(d.pkt, bytes) {
      OtherPayload(d.pkt, bytes);
    }
  }

  /** The block that the receiver waits for is the next to arrive. */
  predicate NextArrives(s: W.State) {
    && !s.rcv.ended && s.data != [] && s.data[0].intact
    && s.data[0].msg.Data? && s.data[0].msg.num == s.rcv.seqExp && |s.data[0].msg.block| >= 2
  }

  lemma ArrivesAs(d: W.Datagram<Message>, rest: seq<byte>) returns (bytes: seq<byte>)
    requires d.intact && W.CarriesMessage(d.pkt, d.msg) && W.Consistent(d) && |d.bytes + rest| == DATAGRAM_SIZE
    requires d.msg.Data? && |d.msg.block| >= 2
    ensures |bytes| == |d.bytes| && Burst(d.bytes, bytes, 10 + |d.msg.block|)
    ensures var r := Decode(bytes + rest, |bytes|);
            && r.Packet? && r.pkt == d.pkt.(payload := r.pkt.payload)
            && |r.pkt.payload| == |d.msg.block| && r.pkt.payload != d.msg.block
  {
    hide Encode, Decode, Missed, Readable, Burst;
    var n := d.pkt.Length();
    assert n == |d.msg.block|;
    bytes := SomeOverlooked(d.pkt, true);
    MissedIsBurst(Encode(d.pkt), bytes, 12 + n);
    assert |bytes| == |d.bytes| by { SameSize(d.bytes, bytes, 12 + n); }
    OtherPayload(d.pkt, bytes);
    LongIsReadable(bytes + rest, |bytes|);
    Layout.EncodedIsLong(d.pkt);
    DamageIsNoticed(d.pkt, bytes, 10 + n, rest, |bytes|);
  }

  lemma SameSize(e: seq<byte>, d: seq<byte>, b: nat)
    requires Missed(e, d, b)
    ensures |e| == |d|
  {
  }

  lemma LongIsReadable(buf: seq<byte>, len: nat)
    requires |buf| == DATAGRAM_SIZE && len <= |buf|
    ensures Readable(buf, len)
  {
  }

  /** The state after the next datagram was changed and has arrived. */
  ghost function Changed(c: Config, s: W.State, bytes: seq<byte>, rest: seq<byte>, now: word32): (s': W.State)
    requires W.InRange(c, s) && s.data != []
    ensures W.InRange(c, s')
  {
    W.Step(c, s.(data := s.data[0 := s.data[0].(bytes := bytes)]), W.DeliverData(rest, now))
  }

  lemma ChangedIs(c: Config, s: W.State, bytes: seq<byte>, rest: seq<byte>, now: word32)
    requires W.InRange(c, s) && s.data != [] && !s.rcv.ended && |bytes + rest| == DATAGRAM_SIZE
    requires var r := Decode(bytes + rest, |bytes|);
             r.Packet? && r.pkt.kind == PTYPE_DATA && r.pkt.tr == 0 && r.pkt.Length() > 0
    ensures var s', p := Changed(c, s, bytes, rest, now), Decode(bytes + rest, |bytes|).pkt;
            s'.rcv == R.Receive(s.rcv, p.seqnum, p.payload) && |s'.acks| == |s.acks| + 1
  {
    hide Encode, Decode, R.Receive, S.InRange, S.Sendable, R.Indexed;
  }

  /** In any run, if the block that the receiver waits for is the next to arrive, four
      bytes of its datagram can be changed so that it is taken: another block of the
      same length is written in its place, and acknowledged. */
  lemma PatternIsWritten(c: Config, run: seq<W.WireAction>, rest: seq<byte>, now: word32) returns (bytes: seq<byte>)
    requires c.Valid() && NextArrives(W.Run(c, run)) && |W.Run(c, run).data[0].bytes + rest| == DATAGRAM_SIZE
    ensures var s := W.Run(c, run);
            var s', block, n := Changed(c, s, bytes, rest, now), s.data[0].msg.block, |s.rcv.out|;
            && Burst(s.data[0].bytes, bytes, 10 + |block|) && |bytes| == |s.data[0].bytes|
            && n < |s'.rcv.out| && s'.rcv.out[..n] == s.rcv.out && |s'.acks| == |s.acks| + 1
            && |s'.rcv.out[n]| == |block| && s'.rcv.out[n] != block
  {
    hide W.Run, Encode, Decode, Burst, W.Consistent, R.Receive, S.InRange, S.Sendable, Changed, W.WireInv;
    W.RunRefines(c, run);
    var s := W.Run(c, run);
    HeadCarries(c, s);
    bytes := ArrivesAs(s.data[0], rest);
    ChangedIs(c, s, bytes, rest, now);
    WritesNext(s.rcv, Decode(bytes + rest, |bytes|).pkt.payload);
  }

  lemma HeadCarries(c: Config, s: W.State)
    requires W.WireInv(c, s) && s.data != []
    ensures W.InRange(c, s) && W.CarriesMessage(s.data[0].pkt, s.data[0].msg) && W.Consistent(s.data[0])
  {
    hide W.Consistent, S.InRange, S.Sendable, R.Indexed;
  }

  lemma FirstBlockDiffers(file: seq<byte>, out: seq<Block>)
    requires |file| >= 2 && out != [] && |out[0]| == |Blocks(file)[0]| && out[0] != Blocks(file)[0]
    ensures !(Concatenated(out) <= file)
  {
    hide Blocks;
    ConcatenatedBlocks(file);
    var x, y := out[0], Blocks(file)[0];
    assert Concatenated(out)[..|x|] == x && Concatenated(Blocks(file))[..|y|] == y;
  }

  lemma FirstIsSent(file: seq<byte>, w: nat)
    requires 1 <= w <= MAX_WINDOW_SIZE && |file| >= 2
    ensures var c := FileConfig(file, w);
            var s := W.Run(c, [W.SendBlock(0)]);
            NextArrives(s) && |s.data| == 1 && s.rcv.out == [] && s.data[0].msg.block == Blocks(file)[0]
  {
    hide Encode;
    var c := FileConfig(file, w);
    assert [W.SendBlock(0)][..0] == [];
    assert W.Run(c, []) == W.Initial(c);
  }

  /** So a file of two bytes or more can be received wrongly without notice, in its
      first datagram. */
  lemma PatternReachesFile(file: seq<byte>, w: nat) returns (bytes: seq<byte>, rest: seq<byte>)
    requires 1 <= w <= MAX_WINDOW_SIZE && |file| >= 2
    ensures var c := FileConfig(file, w);
            var s := W.Run(c, [W.SendBlock(0)]);
            && |s.data| == 1 && Burst(s.data[0].bytes, bytes, 10 + |Blocks(file)[0]|)
            && |bytes + rest| == DATAGRAM_SIZE
            && !(Concatenated(Changed(c, s, bytes, rest, 0).rcv.out) <= file)
  {
    hide W.Run, Changed, Burst, Encode, Decode, Blocks, Concatenated, ByteLimit.Fill, W.Consistent;
    hide R.Receive, R.Indexed, S.InRange, S.Sendable;
    var c, run := FileConfig(file, w), [W.SendBlock(0)];
    FirstIsSent(file, w);
    W.RunRefines(c, run);
    var s := W.Run(c, run);
    rest := ByteLimit.Fill(s.data);
    ByteLimit.FillFits(s.data);
    bytes := PatternIsWritten(c, run, rest, 0);
    FirstBlockDiffers(file, Changed(c, s, bytes, rest, 0).rcv.out);
  }
}
