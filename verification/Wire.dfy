/** The same system with the bytes that are really sent: packets are encoded,
    may be lost or damaged, and are decoded again. */
module Wire {
  import opened Bytes
  import opened Common
  import opened Ring
  import opened Crc
  import opened CrcBoundary
  import opened PacketSpec
  import opened Damage
  import opened Protocol
  import opened Datagrams
  import S = SenderSpec
  import R = ReceiverSpec

  /** A datagram under way. `pkt`, `msg` and `intact` record what it was sent as
      and whether it still is that; no step but damaging depends on them. */
  datatype Datagram<M> = Datagram(bytes: seq<byte>, pkt: Pkt, msg: M, intact: bool)

  datatype State = State(snd: S.Sender, phase: Phase, rcv: R.Receiver,
                         data: seq<Datagram<Message>>, acks: seq<Datagram<Ack>>, base: nat)

  /** `now` is the clock at the time of encoding, `rest` what earlier datagrams
      left behind the received bytes in the buffer of 528 bytes. */
  datatype WireAction =
    | SendBlock(now: word32) | ReadEnd | LeaveLoop | SendEnd(now: word32)
    | Resend(now: word32)
    | LoseData(i: nat) | LoseAck(i: nat)
    | DamageData(i: nat, bytes: seq<byte>, at: nat) | DamageAck(i: nat, bytes: seq<byte>, at: nat)
    | DeliverData(rest: seq<byte>, now: word32) | DeliverAck(rest: seq<byte>)

  function Sent<M>(pkt: Pkt, msg: M): Datagram<M>
    requires pkt.WellFormed()
  {
    Datagram(Encode(pkt), pkt, msg, true)
  }

  function Initial(c: Config): State {
    State(S.INITIAL, Reading, R.Receiver(Nones(c.w), 0, 0, [], false), [], [], 0)
  }

  predicate InRange(c: Config, s: State) {
    && c.Valid() && S.InRange(s.snd) && R.Indexed(s.rcv) && S.Sendable(s.snd.buffer)
  }

  /** Any burst of at most four bytes, but for the one pattern at the end of the
      payload that no checksum notices; each datagram suffers at most one that is
      noticed. */
  ghost predicate MayDamage<M>(d: Datagram<M>, bytes: seq<byte>, at: nat) {
    && d.intact && d.pkt.WellFormed() && bytes != d.bytes == Encode(d.pkt) && Burst(d.bytes, bytes, at)
    && !PayloadMissed(d.pkt, bytes)
  }

  predicate PayloadMissed(p: Pkt, bytes: seq<byte>)
    requires p.WellFormed()
  {
    p.Length() >= 2 && Missed(Encode(p), bytes, 12 + p.Length())
  }

  /** The pattern at the end of the header leaves a datagram intact: it now is the
      same packet with another timestamp. */
  function Damaged<M>(d: Datagram<M>, bytes: seq<byte>): Datagram<M>
    requires d.pkt.WellFormed() && |bytes| == |Encode(d.pkt)|
  {
    if Missed(Encode(d.pkt), bytes, 8) then d.(bytes := bytes, pkt := TakenFor(d.pkt, bytes))
    else d.(bytes := bytes, intact := false)
  }

  ghost predicate Enabled(c: Config, s: State, a: WireAction)
    requires InRange(c, s)
  {
    match a
    case SendBlock(_) => s.phase == Reading && S.MayRead(s.snd) && s.snd.seqInd < |c.blocks|
    case ReadEnd => s.phase == Reading && S.MayRead(s.snd) && s.snd.seqInd == |c.blocks|
    case LeaveLoop => s.phase == LastTurn
    case SendEnd(_) => s.phase == Ending
    case Resend(_) => s.phase != Ending && S.Oldest(s.snd).Some?
    case LoseData(i) => i < |s.data|
    case LoseAck(i) => i < |s.acks|
    case DamageData(i, bytes, at) => i < |s.data| && MayDamage(s.data[i], bytes, at)
    case DamageAck(i, bytes, at) => i < |s.acks| && MayDamage(s.acks[i], bytes, at)
    case DeliverData(rest, _) => !s.rcv.ended && s.data != [] && |s.data[0].bytes + rest| == DATAGRAM_SIZE
    case DeliverAck(rest) => s.phase != Ending && s.acks != [] && |s.acks[0].bytes + rest| == DATAGRAM_SIZE
  }

  ghost function Step(c: Config, s: State, a: WireAction): (s': State)
    requires InRange(c, s)
    ensures InRange(c, s')
  {
    if !Enabled(c, s, a) then s else
    match a
    case SendBlock(now) =>
      var block := c.blocks[s.snd.seqInd];
      s.(snd := S.Send(s.snd, block),
         data := s.data + [Sent(DataPacket(s.snd.seqExp, s.snd.window, block, now),
                                Data(s.snd.seqExp, block, s.snd.seqInd))])
    case ReadEnd => s.(phase := LastTurn)
    case LeaveLoop => s.(phase := Ending)
    case SendEnd(now) =>
      s.(data := s.data + [Sent(DataPacket(s.snd.seqExp, s.snd.window, [], now), End(s.snd.seqExp))])
    case Resend(now) =>
      var kept := S.Oldest(s.snd).value;
      var origin := S.LatestIn(s.snd.smallInd, s.snd.seqInd, s.snd.window);
      s.(data := s.data + [Sent(Again(kept, now), Data(kept.num, kept.block, origin))])
    case LoseData(i) => s.(data := Without(s.data, i))
    case LoseAck(i) => s.(acks := Without(s.acks, i))
    case DamageData(i, bytes, _) => s.(data := s.data[i := Damaged(s.data[i], bytes)])
    case DamageAck(i, bytes, _) => s.(acks := s.acks[i := Damaged(s.acks[i], bytes)])
    case DeliverData(rest, now) =>
      Arrive(c, s.(data := s.data[1..]), Decode(s.data[0].bytes + rest, |s.data[0].bytes|), now)
    case DeliverAck(rest) =>
      DecodedIsWellFormedIf(s.acks[0].bytes + rest, |s.acks[0].bytes|);
      TakeReply(c, s.(acks := s.acks[1..]), Decode(s.acks[0].bytes + rest, |s.acks[0].bytes|))
  }

  lemma DecodedIsWellFormedIf(buf: seq<byte>, len: nat)
    requires |buf| >= DATAGRAM_SIZE
    ensures Decode(buf, len).Packet? ==> Decode(buf, len).pkt.WellFormed()
  {
    if Decode(buf, len).Packet? {
      DecodedIsWellFormed(buf, len);
    }
  }

  /** The receiver takes the decoded bytes and sends its answer. Refusals are not
      part of the closed system: no sender sets TR. */
  function Arrive(c: Config, s: State, d: Decoded, now: word32): (s': State)
    requires InRange(c, s)
    ensures InRange(c, s')
  {
    var rcv, answer := Receive(s.rcv, d), Answer(s.rcv, d, now);
    if answer.Some? && answer.value.kind == PTYPE_ACK then
      s.(rcv := rcv, acks := s.acks + [Sent(answer.value, Ack(rcv.seqExp, |rcv.ring|, |rcv.out|))])
    else
      s.(rcv := rcv)
  }

  /** The sender takes the decoded bytes; an acknowledgement moves the base. */
  function TakeReply(c: Config, s: State, d: Decoded): (s': State)
    requires InRange(c, s) && (d.Packet? ==> d.pkt.WellFormed())
    ensures InRange(c, s')
  {
    var moved := if d.Packet? && d.pkt.kind == PTYPE_ACK then Distance(s.snd.smallSeq, d.pkt.seqnum) else 0;
    s.(snd := TakeAnswer(s.snd, d), base := s.base + moved)
  }

  ghost function Run(c: Config, run: seq<WireAction>): (s: State)
    requires c.Valid()
    ensures InRange(c, s)
  {
    if run == [] then Initial(c) else Step(c, Run(c, run[..|run| - 1]), run[|run| - 1])
  }

  // ---------------------------------------------------------------------------
  // Damaged datagrams are as good as lost

  /** The messages of the intact datagrams, in order. */
  function Intact<M>(q: seq<Datagram<M>>): seq<M> {
    if q == [] then [] else Intact(q[..|q| - 1]) + OwnMessage(q[|q| - 1])
  }

  function OwnMessage<M>(d: Datagram<M>): seq<M> {
    if d.intact then [d.msg] else []
  }

  lemma IntactAppend<M>(q: seq<Datagram<M>>, d: Datagram<M>)
    ensures Intact(q + [d]) == Intact(q) + OwnMessage(d)
  {
    assert (q + [d])[..|q|] == q;
  }

  /** The place of datagram `i` among the intact ones. */
  function Place<M>(q: seq<Datagram<M>>, i: nat): nat
    requires i <= |q|
  {
    |Intact(q[..i])|
  }

  /** `q` is `r` but for datagram `i`, which is intact only in `r`. */
  lemma {:induction false} IntactDamaged<M>(q: seq<Datagram<M>>, i: nat, d: Datagram<M>)
    requires i < |q| && q[i].intact && !d.intact
    ensures Place(q, i) < |Intact(q)| && Intact(q[i := d]) == Without(Intact(q), Place(q, i))
    decreases |q|
  {
    var n := |q| - 1;
    var p, last := q[..n], q[n];
    assert q == p + [last];
    IntactAppend(p, last);
    if i < n {
      assert q[i := d] == p[i := d] + [last] && q[..i] == p[..i];
      IntactDamaged(p, i, d);
      IntactAppend(p[i := d], last);
      WithoutAppend(Intact(p), OwnMessage(last), Place(p, i));
    } else {
      assert q[i := d] == p + [d] && q[..i] == p;
      IntactAppend(p, d);
      WithoutLast(Intact(p), last.msg);
    }
  }

  /** `q` is `r` but for the bytes of datagram `i`. */
  lemma {:induction false} IntactSame<M>(q: seq<Datagram<M>>, i: nat, d: Datagram<M>)
    requires i < |q| && q[i].intact && d.intact && d.msg == q[i].msg
    ensures Intact(q[i := d]) == Intact(q)
    decreases |q|
  {
    var n := |q| - 1;
    if i < n {
      assert q[i := d][..n] == q[..n][i := d];
      IntactSame(q[..n], i, d);
    } else {
      assert q[i := d][..n] == q[..n];
    }
  }

  lemma {:induction false} IntactWithout<M>(q: seq<Datagram<M>>, i: nat)
    requires i < |q|
    ensures q[i].intact ==> Place(q, i) < |Intact(q)|
    ensures Intact(Without(q, i)) == if q[i].intact then Without(Intact(q), Place(q, i)) else Intact(q)
    decreases |q|
  {
    var n := |q| - 1;
    var p, last := q[..n], q[n];
    assert q == p + [last];
    IntactAppend(p, last);
    if i < n {
      assert Without(q, i) == Without(p, i) + [last] && q[..i] == p[..i];
      IntactWithout(p, i);
      IntactAppend(Without(p, i), last);
      if q[i].intact {
        WithoutAppend(Intact(p), OwnMessage(last), Place(p, i));
      }
    } else {
      assert Without(q, i) == p && q[..i] == p;
      if q[i].intact {
        WithoutLast(Intact(p), last.msg);
      }
    }
  }

  lemma WithoutAppend<M>(q: seq<M>, r: seq<M>, i: nat)
    requires i < |q|
    ensures Without(q + r, i) == Without(q, i) + r
  {
  }

  lemma WithoutLast<M>(q: seq<M>, m: M)
    ensures Without(q + [m], |q|) == q
  {
  }

  lemma IntactTail<M>(q: seq<Datagram<M>>)
    requires q != []
    ensures q[0].intact ==> Intact(q) != [] && Intact(q)[0] == q[0].msg && Intact(q[1..]) == Intact(q)[1..]
    ensures !q[0].intact ==> Intact(q[1..]) == Intact(q)
  {
    IntactWithout(q, 0);
    assert Without(q, 0) == q[1..];
    if q[0].intact {
      IntactHead(q);
      assert Without(Intact(q), 0) == Intact(q)[1..];
    }
  }

  lemma {:induction false} IntactHead<M>(q: seq<Datagram<M>>)
    requires q != [] && q[0].intact
    ensures Intact(q) != [] && Intact(q)[0] == q[0].msg
    decreases |q|
  {
    if |q| > 1 {
      IntactHead(q[..|q| - 1]);
    }
  }

  predicate CarriesMessage(p: Pkt, m: Message) {
    && p.WellFormed() && p.kind == PTYPE_DATA && p.tr == 0 && p.seqnum == m.num
    && match m
       case Data(_, block, _) => p.payload == block && block != []
       case End(_) => p.payload == []
  }

  predicate CarriesAck(p: Pkt, k: Ack) {
    p.WellFormed() && p.kind == PTYPE_ACK && p.tr == 0 && p.seqnum == k.num && p.window == k.window
  }

  /** Intact bytes are the encoding; damaged ones differ from it by one burst. */
  ghost predicate Consistent<M>(d: Datagram<M>)
    requires d.pkt.WellFormed()
  {
    if d.intact then d.bytes == Encode(d.pkt)
    else
      && d.bytes != Encode(d.pkt) && !Overlooked(d.pkt, d.bytes)
      && exists at: nat :: Burst(Encode(d.pkt), d.bytes, at)
  }

  ghost predicate WireInv(c: Config, s: State) {
    && InRange(c, s) && |s.rcv.ring| == c.w
    && (forall i :: 0 <= i < |s.data| ==> CarriesMessage(s.data[i].pkt, s.data[i].msg) && Consistent(s.data[i]))
    && (forall i :: 0 <= i < |s.acks| ==> CarriesAck(s.acks[i].pkt, s.acks[i].msg) && Consistent(s.acks[i]))
  }

  /** What arrives is decoded as what was sent, or refused if it was damaged. */
  lemma DecodeConsistent<M>(d: Datagram<M>, rest: seq<byte>)
    requires d.pkt.WellFormed() && Consistent(d) && |d.bytes + rest| >= DATAGRAM_SIZE
    ensures var r := Decode(d.bytes + rest, |d.bytes|);
            if d.intact then r == Packet(d.pkt) else r.Refused?
  {
    hide Decode, Encode, Overlooked;
    if d.intact {
      EncodingIsReadable(d.pkt, d.bytes + rest, |d.bytes|);
      DecodeIffEncoding(d.bytes + rest, |d.bytes|, d.pkt);
    } else {
      var at: nat :| Burst(Encode(d.pkt), d.bytes, at);
      DamageIsNoticed(d.pkt, d.bytes, at, rest, |d.bytes|);
    }
  }

  function Abstract(s: State): System {
    System(s.snd, s.phase, s.rcv, Intact(s.data), Intact(s.acks), s.base)
  }

  /** The step of the packet-level system that a step on the wire amounts to:
      damage is loss, and the arrival of a damaged datagram is nothing. */
  ghost function Meaning(c: Config, s: State, a: WireAction): seq<Action>
    requires InRange(c, s)
  {
    if !Enabled(c, s, a) then [] else
    match a
    case SendBlock(_) => [Action.SendBlock]
    case ReadEnd => [Action.ReadEnd]
    case LeaveLoop => [Action.LeaveLoop]
    case SendEnd(_) => [Action.SendEnd]
    case Resend(_) => [Action.Resend]
    case LoseData(i) => if s.data[i].intact then [Action.LoseData(Place(s.data, i))] else []
    case LoseAck(i) => if s.acks[i].intact then [Action.LoseAck(Place(s.acks, i))] else []
    case DamageData(i, bytes, _) =>
      if Damaged(s.data[i], bytes).intact then [] else [Action.LoseData(Place(s.data, i))]
    case DamageAck(i, bytes, _) =>
      if Damaged(s.acks[i], bytes).intact then [] else [Action.LoseAck(Place(s.acks, i))]
    case DeliverData(_, _) => if s.data[0].intact then [Action.DeliverData] else []
    case DeliverAck(_) => if s.acks[0].intact then [Action.DeliverAck] else []
  }

  /** One step on the wire keeps the invariant and means what `Meaning` says. */
  ghost predicate Simulates(c: Config, s: State, a: WireAction)
    requires InRange(c, s)
  {
    var s', meaning := Step(c, s, a), Meaning(c, s, a);
    && WireInv(c, s') && Protocol.InRange(c, Abstract(s)) && Protocol.InRange(c, Abstract(s'))
    && (meaning == [] ==> Abstract(s') == Abstract(s))
    && (meaning != [] ==>
          && Protocol.Enabled(c, Abstract(s), meaning[0])
          && Abstract(s') == Protocol.Step(c, Abstract(s), meaning[0]))
  }

  lemma AbstractInRange(c: Config, s: State)
    requires WireInv(c, s)
    ensures Protocol.InRange(c, Abstract(s))
  {
    IntactAcks(s.acks);
  }

  lemma {:induction false} IntactAcks(q: seq<Datagram<Ack>>)
    requires forall i :: 0 <= i < |q| ==> CarriesAck(q[i].pkt, q[i].msg)
    ensures forall i :: 0 <= i < |Intact(q)| ==> Intact(q)[i].window <= MAX_WINDOW_SIZE
    decreases |q|
  {
    if q != [] {
      IntactAcks(q[..|q| - 1]);
    }
  }

  lemma SimulateSend(c: Config, s: State, a: WireAction)
    requires WireInv(c, s) && Enabled(c, s, a) && (a.SendBlock? || a.SendEnd? || a.Resend?)
    ensures Simulates(c, s, a)
  {
    hide Encode, S.Acknowledge, S.LatestIn, Slot, Intact;
    var s' := Step(c, s, a);
    AbstractInRange(c, s);
    IntactAppend(s.data, s'.data[|s.data|]);
    AbstractInRange(c, s');
  }

  lemma SimulatePhase(c: Config, s: State, a: WireAction)
    requires WireInv(c, s) && Enabled(c, s, a) && (a.ReadEnd? || a.LeaveLoop?)
    ensures Simulates(c, s, a)
  {
    hide Encode, S.Acknowledge, Slot, Intact;
    AbstractInRange(c, s);
    AbstractInRange(c, Step(c, s, a));
  }

  lemma SimulateLose(c: Config, s: State, a: WireAction)
    requires WireInv(c, s) && Enabled(c, s, a) && (a.LoseData? || a.LoseAck?)
    ensures Simulates(c, s, a)
  {
    hide Encode, S.Acknowledge, Slot, Intact, Place, Consistent, CarriesMessage, CarriesAck;
    AbstractInRange(c, s);
    if a.LoseData? {
      IntactWithout(s.data, a.i);
    } else {
      IntactWithout(s.acks, a.i);
    }
    AbstractInRange(c, Step(c, s, a));
  }

  /** A damaged datagram is consistent, and if it is intact it carries the same
      message. */
  lemma DamagedIsConsistent<M>(d: Datagram<M>, bytes: seq<byte>, at: nat)
    requires MayDamage(d, bytes, at)
    ensures |bytes| == |Encode(d.pkt)|
    ensures var d' := Damaged(d, bytes);
            && d'.msg == d.msg && d'.pkt.WellFormed() && Consistent(d')
            && d'.pkt == d.pkt.(timestamp := d'.pkt.timestamp)
  {
    hide Encode, Missed;
    if Missed(Encode(d.pkt), bytes, 8) {
      OverlookedHeader(d.pkt, bytes);
    }
  }

  lemma SimulateDamageData(c: Config, s: State, a: WireAction)
    requires WireInv(c, s) && Enabled(c, s, a) && a.DamageData?
    ensures Simulates(c, s, a)
  {
    hide Encode, S.Acknowledge, Slot, Intact, Place, Damaged, MayDamage, Consistent, Burst;
    AbstractInRange(c, s);
    DamagedIsConsistent(s.data[a.i], a.bytes, a.at);
    WasIntact(s.data[a.i], a.bytes, a.at);
    var d' := Damaged(s.data[a.i], a.bytes);
    if d'.intact {
      IntactSame(s.data, a.i, d');
    } else {
      IntactDamaged(s.data, a.i, d');
    }
    AbstractInRange(c, Step(c, s, a));
  }

  lemma SimulateDamageAck(c: Config, s: State, a: WireAction)
    requires WireInv(c, s) && Enabled(c, s, a) && a.DamageAck?
    ensures Simulates(c, s, a)
  {
    hide Encode, S.Acknowledge, Slot, Intact, Place, Damaged, MayDamage, Consistent, Burst;
    AbstractInRange(c, s);
    DamagedIsConsistent(s.acks[a.i], a.bytes, a.at);
    WasIntact(s.acks[a.i], a.bytes, a.at);
    var d' := Damaged(s.acks[a.i], a.bytes);
    if d'.intact {
      IntactSame(s.acks, a.i, d');
    } else {
      IntactDamaged(s.acks, a.i, d');
    }
    AbstractInRange(c, Step(c, s, a));
  }

  lemma WasIntact<M>(d: Datagram<M>, bytes: seq<byte>, at: nat)
    requires MayDamage(d, bytes, at)
    ensures d.intact
  {
  }

  lemma SimulateDeliverData(c: Config, s: State, a: WireAction)
    requires WireInv(c, s) && Enabled(c, s, a) && a.DeliverData?
    ensures Simulates(c, s, a)
  {
    hide Encode, Decode, S.Acknowledge, Slot, Intact, Place, R.Receive;
    AbstractInRange(c, s);
    var s' := Step(c, s, a);
    DecodeConsistent(s.data[0], a.rest);
    IntactTail(s.data);
    if s'.acks != s.acks {
      IntactAppend(s.acks, s'.acks[|s.acks|]);
    }
    AbstractInRange(c, s');
  }

  lemma SimulateDeliverAck(c: Config, s: State, a: WireAction)
    requires WireInv(c, s) && Enabled(c, s, a) && a.DeliverAck?
    ensures Simulates(c, s, a)
  {
    hide Encode, Decode, S.Acknowledge, Slot, Intact, Place;
    AbstractInRange(c, s);
    DecodeConsistent(s.acks[0], a.rest);
    IntactTail(s.acks);
    AcknowledgeKeepsBuffer(s.snd, s.acks[0].msg.num, s.acks[0].msg.window);
    AbstractInRange(c, Step(c, s, a));
  }

  lemma AcknowledgeKeepsBuffer(s: S.Sender, num: byte, window: nat)
    requires S.InRange(s) && window <= MAX_WINDOW_SIZE
    ensures S.Acknowledge(s, num, window).buffer == s.buffer
  {
  }

  lemma Simulate(c: Config, s: State, a: WireAction)
    requires WireInv(c, s)
    ensures Simulates(c, s, a)
  {
    if !Enabled(c, s, a) {
      AbstractInRange(c, s);
    } else {
      hide WireInv, Simulates;
      match a
      case SendBlock(_) => SimulateSend(c, s, a);
      case SendEnd(_) => SimulateSend(c, s, a);
      case Resend(_) => SimulateSend(c, s, a);
      case ReadEnd => SimulatePhase(c, s, a);
      case LeaveLoop => SimulatePhase(c, s, a);
      case LoseData(_) => SimulateLose(c, s, a);
      case LoseAck(_) => SimulateLose(c, s, a);
      case DamageData(_, _, _) => SimulateDamageData(c, s, a);
      case DamageAck(_, _, _) => SimulateDamageAck(c, s, a);
      case DeliverData(_, _) => SimulateDeliverData(c, s, a);
      case DeliverAck(_) => SimulateDeliverAck(c, s, a);
    }
  }

  /** The packet-level run that a run on the wire amounts to. */
  ghost function MeaningOf(c: Config, run: seq<WireAction>): seq<Action>
    requires c.Valid()
  {
    if run == [] then []
    else MeaningOf(c, run[..|run| - 1]) + Meaning(c, Run(c, run[..|run| - 1]), run[|run| - 1])
  }

  /** Every run on the wire, with losses and with damage, ends in the state that
      the packet-level run ends in, in which each damaged datagram is lost. */
  lemma {:induction false} RunRefines(c: Config, run: seq<WireAction>)
    requires c.Valid()
    ensures WireInv(c, Run(c, run))
    ensures Abstract(Run(c, run)) == Protocol.Run(c, MeaningOf(c, run))
  {
    hide WireInv, Step, Protocol.Step, Abstract, Meaning;
    if run == [] {
      InitiallyRefines(c);
    } else {
      var past, a := run[..|run| - 1], run[|run| - 1];
      RunRefines(c, past);
      Simulate(c, Run(c, past), a);
      var meaning := Meaning(c, Run(c, past), a);
      AtMostOne(c, Run(c, past), a);
      if meaning == [] {
        assert MeaningOf(c, run) == MeaningOf(c, past);
      } else {
        assert meaning == [meaning[0]];
        RunExtend(c, MeaningOf(c, past), meaning[0]);
      }
    }
  }

  lemma AtMostOne(c: Config, s: State, a: WireAction)
    requires InRange(c, s)
    ensures |Meaning(c, s, a)| <= 1
  {
  }

  lemma InitiallyRefines(c: Config)
    requires c.Valid()
    ensures WireInv(c, Initial(c)) && Abstract(Initial(c)) == Protocol.Initial(c)
  {
  }
}
