/** What is sent in every run: each block always in the same packet, but for the time of
    sending, whether it is sent for the first time or by the timer. */
module SentBytes {
  import opened Bytes
  import opened Common
  import opened Ring
  import opened Crc
  import opened PacketSpec
  import opened Layout
  import opened Protocol
  import opened Datagrams
  import opened UnsetPointer
  import S = SenderSpec
  import R = ReceiverSpec
  import W = Wire
  import WT = WireTurns
  import WN = WireNetwork
  import N = Network

  /** The packet that a message is sent in, with the numbers of `packet_interface.h`: a
      block as type 1 with its number modulo 256, the first with the window 1 and all
      others with the window of the receiver; the end as the number behind the last
      block, with length 0. */
  predicate DataSentIn(c: Config, p: Pkt, m: Message) {
    match m
    case Data(_, _, a) =>
      a < |c.blocks| &&
      p == Pkt(1, 0, if a == 0 then 1 else c.w, a % 256, |c.blocks[a]|, p.timestamp, c.blocks[a])
    case End(_) =>
      p == Pkt(1, 0, p.window, |c.blocks| % 256, 0, p.timestamp, []) && (p.window == 1 || p.window == c.w)
  }

  /** An acknowledgement is type 2, with the window of the receiver and the number of
      blocks written. */
  predicate AckSentIn(c: Config, p: Pkt, k: Ack) {
    p == Pkt(2, 0, c.w, k.origin % 256, 0, p.timestamp, [])
  }

  /** Everything behind `q` was sent at this time. */
  predicate Stamped<M>(q: seq<W.Datagram<M>>, more: seq<W.Datagram<M>>, now: word32) {
    |q| <= |more| && forall i :: |q| <= i < |more| ==> more[i].pkt.timestamp == now
  }

  predicate DataMade(c: Config, q: seq<W.Datagram<Message>>) {
    forall i :: 0 <= i < |q| ==> DataSentIn(c, q[i].pkt, q[i].msg)
  }

  predicate AcksMade(c: Config, q: seq<W.Datagram<Ack>>) {
    forall i :: 0 <= i < |q| ==> AckSentIn(c, q[i].pkt, q[i].msg)
  }

  ghost predicate Made(c: Config, s: W.State) {
    && W.WireInv(c, s) && Rings(c, W.Abstract(s)) && R.Valid(s.rcv)
    && (s.phase != Reading ==> s.snd.seqInd == |c.blocks|)
    && DataMade(c, s.data) && AcksMade(c, s.acks)
  }

  lemma MadeGives(c: Config, s: W.State)
    requires Made(c, s)
    ensures W.InRange(c, s) && |s.rcv.ring| == c.w && S.RingInv(s.snd, c.blocks, c.w)
    ensures s.phase != Reading ==> s.snd.seqInd == |c.blocks|
  {
    hide S.RingInv, W.Intact;
  }

  /** The step keeps the invariant of the packets, and the two sides are as they
      should be. */
  lemma BothSides(c: Config, s: W.State, a: W.WireAction)
    requires Made(c, s)
    ensures W.InRange(c, s)
    ensures var s' := W.Step(c, s, a); W.WireInv(c, s') && Rings(c, W.Abstract(s'))
  {
    hide Rings, W.Step, Step, W.Abstract, W.WireInv, W.Meaning;
    WT.InvIsInRange(c, s);
    WT.StepRefines(c, s, a);
    var meaning := W.Meaning(c, s, a);
    if meaning != [] {
      RingsStep(c, W.Abstract(s), meaning[0]);
    }
  }

  lemma SendMakes(c: Config, s: W.State, a: W.WireAction)
    requires Made(c, s) && W.InRange(c, s) && W.Enabled(c, s, a) && (a.SendBlock? || a.SendEnd? || a.Resend?)
    ensures var s' := W.Step(c, s, a); DataMade(c, s'.data) && s'.acks == s.acks && s'.rcv == s.rcv
  {
    MadeGives(c, s);
    SentIs(c, s, a);
    hide W.WireInv, Rings, S.RingInv, W.Step, W.InRange, W.Enabled, DataSentIn, AcksMade;
    var s' := W.Step(c, s, a);
    assert s'.data == s.data + [s'.data[|s.data|]];
    OneMoreMade(c, s.data, s'.data[|s.data|]);
  }

  lemma OneMoreMade(c: Config, q: seq<W.Datagram<Message>>, d: W.Datagram<Message>)
    requires DataMade(c, q) && DataSentIn(c, d.pkt, d.msg)
    ensures DataMade(c, q + [d])
  {
    hide DataSentIn;
  }

  /** What is sent. */
  lemma SentIs(c: Config, s: W.State, a: W.WireAction)
    requires S.RingInv(s.snd, c.blocks, c.w) && W.InRange(c, s) && W.Enabled(c, s, a)
    requires a.SendBlock? || a.SendEnd? || a.Resend?
    requires s.phase != Reading ==> s.snd.seqInd == |c.blocks|
    ensures var s' := W.Step(c, s, a);
            && |s'.data| == |s.data| + 1 && s'.data[..|s.data|] == s.data && s'.acks == s.acks && s'.rcv == s.rcv
            && DataSentIn(c, s'.data[|s.data|].pkt, s'.data[|s.data|].msg) && s'.data[|s.data|].pkt.timestamp == a.now
  {
    hide Encode, Slot, S.LatestIn, S.KeepsLatest, S.RestEmpty;
    if a.Resend? {
      S.OldestIs(s.snd, c.blocks, c.w);
    }
  }

  lemma LoseMakes(c: Config, s: W.State, a: W.WireAction)
    requires Made(c, s) && W.InRange(c, s) && (a.LoseData? || a.LoseAck? || a.ReadEnd? || a.LeaveLoop?)
    ensures var s' := W.Step(c, s, a); DataMade(c, s'.data) && AcksMade(c, s'.acks) && s'.rcv == s.rcv
  {
    hide W.WireInv, Rings, DataSentIn, AckSentIn;
  }

  /** Damage changes at most the time of sending. */
  lemma DamageMakes(c: Config, s: W.State, a: W.WireAction)
    requires Made(c, s) && W.InRange(c, s) && W.Enabled(c, s, a) && (a.DamageData? || a.DamageAck?)
    ensures var s' := W.Step(c, s, a); DataMade(c, s'.data) && AcksMade(c, s'.acks) && s'.rcv == s.rcv
  {
    hide W.WireInv, Rings, W.MayDamage, W.Damaged, W.Consistent, S.InRange, S.Sendable, R.Valid, R.Indexed;
    hide DataSentIn, AckSentIn;
    if a.DamageData? {
      W.DamagedIsConsistent(s.data[a.i], a.bytes, a.at);
      RestampedData(c, s.data[a.i].pkt, W.Damaged(s.data[a.i], a.bytes).pkt, s.data[a.i].msg);
    } else {
      W.DamagedIsConsistent(s.acks[a.i], a.bytes, a.at);
      RestampedAck(c, s.acks[a.i].pkt, W.Damaged(s.acks[a.i], a.bytes).pkt, s.acks[a.i].msg);
    }
  }

  lemma RestampedData(c: Config, p: Pkt, q: Pkt, m: Message)
    requires DataSentIn(c, p, m) && q == p.(timestamp := q.timestamp)
    ensures DataSentIn(c, q, m)
  {
  }

  lemma RestampedAck(c: Config, p: Pkt, q: Pkt, k: Ack)
    requires AckSentIn(c, p, k) && q == p.(timestamp := q.timestamp)
    ensures AckSentIn(c, q, k)
  {
  }

  /** The acknowledgement of a packet that was decoded. */
  lemma AnswerIsMade(c: Config, r: R.Receiver, d: Decoded, now: word32)
    requires R.Valid(r) && R.Indexed(r) && |r.ring| == c.w
    ensures R.Valid(Receive(r, d))
    ensures var r', answer := Receive(r, d), Answer(r, d, now);
            answer.Some? && answer.value.kind == PTYPE_ACK ==>
              AckSentIn(c, answer.value, Ack(r'.seqExp, |r'.ring|, |r'.out|)) && answer.value.timestamp == now
  {
    hide R.Receive, Slot;
    if d.Packet? {
      R.ReceiveStaysValid(r, d.pkt.seqnum, d.pkt.payload);
    }
  }

  lemma ArriveMakes(c: Config, s: W.State, d: Decoded, now: word32)
    requires W.InRange(c, s) && R.Valid(s.rcv) && |s.rcv.ring| == c.w && AcksMade(c, s.acks)
    ensures var s' := W.Arrive(c, s, d, now); s'.data == s.data && AcksMade(c, s'.acks) && R.Valid(s'.rcv)
    ensures Stamped(s.acks, W.Arrive(c, s, d, now).acks, now)
  {
    AnswerIsMade(c, s.rcv, d, now);
    hide Encode, Receive, Answer, S.InRange, S.Sendable, R.Valid, AckSentIn;
  }

  lemma AnswerMakes(c: Config, s: W.State, a: W.WireAction)
    requires Made(c, s) && W.InRange(c, s) && W.Enabled(c, s, a) && a.DeliverData?
    ensures var s' := W.Step(c, s, a); DataMade(c, s'.data) && AcksMade(c, s'.acks) && R.Valid(s'.rcv)
  {
    MadeGives(c, s);
    ArriveMakes(c, s.(data := s.data[1..]), Decode(s.data[0].bytes + a.rest, |s.data[0].bytes|), a.now);
    hide W.WireInv, Rings, Decode, W.Arrive, S.InRange, S.Sendable, R.Valid, R.Indexed, S.RingInv;
    hide DataSentIn, AcksMade;
  }

  lemma TakeMakes(c: Config, s: W.State, a: W.WireAction)
    requires Made(c, s) && W.InRange(c, s) && W.Enabled(c, s, a) && a.DeliverAck?
    ensures var s' := W.Step(c, s, a); DataMade(c, s'.data) && AcksMade(c, s'.acks) && s'.rcv == s.rcv
  {
    hide W.WireInv, Rings, Decode, TakeAnswer, DataSentIn, AckSentIn;
  }

  /** The loop ends only at the end of the file. */
  lemma EndKeeps(c: Config, s: W.State, a: W.WireAction)
    requires W.InRange(c, s) && (s.phase != Reading ==> s.snd.seqInd == |c.blocks|)
    ensures var s' := W.Step(c, s, a); s'.phase != Reading ==> s'.snd.seqInd == |c.blocks|
  {
    hide Decode, S.MayRead, S.Oldest, S.Sendable, R.Indexed;
  }

  lemma StepMakes(c: Config, s: W.State, a: W.WireAction)
    requires Made(c, s)
    ensures W.InRange(c, s) && Made(c, W.Step(c, s, a))
  {
    BothSides(c, s, a);
    EndKeeps(c, s, a);
    hide W.WireInv, Rings, W.Step, W.Enabled, DataMade, AcksMade, R.Valid;
    if !W.Enabled(c, s, a) {
      Unmoved(c, s, a);
    } else {
      match a
      case SendBlock(_) => SendMakes(c, s, a);
      case SendEnd(_) => SendMakes(c, s, a);
      case Resend(_) => SendMakes(c, s, a);
      case DamageData(_, _, _) => DamageMakes(c, s, a);
      case DamageAck(_, _, _) => DamageMakes(c, s, a);
      case DeliverData(_, _) => AnswerMakes(c, s, a);
      case DeliverAck(_) => TakeMakes(c, s, a);
      case _ => LoseMakes(c, s, a);
    }
  }

  lemma Unmoved(c: Config, s: W.State, a: W.WireAction)
    requires W.InRange(c, s) && !W.Enabled(c, s, a)
    ensures W.Step(c, s, a) == s
  {
  }

  lemma {:induction false} PerformMakes(c: Config, s: W.State, steps: seq<W.WireAction>)
    requires Made(c, s)
    ensures W.InRange(c, s) && Made(c, WT.Perform(c, s, steps))
    decreases |steps|
  {
    MadeGives(c, s);
    hide Made, W.Step;
    if steps != [] {
      var n := |steps| - 1;
      PerformMakes(c, s, steps[..n]);
      StepMakes(c, WT.Perform(c, s, steps[..n]), steps[n]);
    }
  }

  lemma InitiallyMade(c: Config)
    requires c.Valid()
    ensures Made(c, W.Initial(c))
  {
    W.InitiallyRefines(c);
    RingsAlways(c, []);
    assert Run(c, []) == Initial(c);
    SlotSmall(0, c.w);
  }

  /** In every run of steps on bytes. */
  lemma MadeAlways(c: Config, run: seq<W.WireAction>)
    requires c.Valid()
    ensures Made(c, W.Run(c, run))
  {
    hide Made;
    InitiallyMade(c);
    PerformMakes(c, W.Initial(c), run);
    WT.NoSteps(c);
    WT.PerformRun(c, [], run);
    assert [] + run == run;
  }

  predicate SendsAt(a: W.WireAction, now: word32) {
    match a
    case SendBlock(t) => t == now
    case SendEnd(t) => t == now
    case Resend(t) => t == now
    case _ => a.ReadEnd? || a.LeaveLoop? || a.DeliverAck?
  }

  lemma StepStamps(c: Config, s: W.State, a: W.WireAction, now: word32)
    requires Made(c, s) && W.InRange(c, s) && SendsAt(a, now)
    ensures Stamped(s.data, W.Step(c, s, a).data, now)
    ensures s.data == W.Step(c, s, a).data[..|s.data|]
  {
    MadeGives(c, s);
    hide Made, S.RingInv, W.InRange, W.Enabled, W.Step, Stamped;
    if W.Enabled(c, s, a) && (a.SendBlock? || a.SendEnd? || a.Resend?) {
      SendStamps(c, s, a);
    } else {
      NothingIsSent(c, s, a);
      NothingStamped(s.data, now);
    }
  }

  lemma NothingStamped<M>(q: seq<W.Datagram<M>>, now: word32)
    ensures Stamped(q, q, now)
  {
  }

  lemma SendStamps(c: Config, s: W.State, a: W.WireAction)
    requires S.RingInv(s.snd, c.blocks, c.w) && W.InRange(c, s) && W.Enabled(c, s, a)
    requires a.SendBlock? || a.SendEnd? || a.Resend?
    requires s.phase != Reading ==> s.snd.seqInd == |c.blocks|
    ensures Stamped(s.data, W.Step(c, s, a).data, a.now) && s.data == W.Step(c, s, a).data[..|s.data|]
  {
    SentIs(c, s, a);
    hide W.Step, S.RingInv, W.InRange, W.Enabled, DataSentIn;
  }

  lemma NothingIsSent(c: Config, s: W.State, a: W.WireAction)
    requires W.InRange(c, s) && (!W.Enabled(c, s, a) || a.ReadEnd? || a.LeaveLoop? || a.DeliverAck?)
    ensures W.Step(c, s, a).data == s.data
  {
    hide Decode, TakeAnswer, S.InRange, S.Sendable, R.Indexed, S.MayRead, S.Oldest;
  }

  lemma {:induction false} PerformStamps(c: Config, s: W.State, steps: seq<W.WireAction>, now: word32)
    requires Made(c, s) && W.InRange(c, s) && forall i :: 0 <= i < |steps| ==> SendsAt(steps[i], now)
    ensures Stamped(s.data, WT.Perform(c, s, steps).data, now)
    ensures s.data == WT.Perform(c, s, steps).data[..|s.data|]
    decreases |steps|
  {
    hide Made, W.Step, SendsAt;
    if steps != [] {
      var n := |steps| - 1;
      PerformStamps(c, s, steps[..n], now);
      PerformMakes(c, s, steps[..n]);
      var t := WT.Perform(c, s, steps[..n]);
      StepStamps(c, t, steps[n], now);
      var u := W.Step(c, t, steps[n]);
      forall i | |s.data| <= i < |u.data|
        ensures u.data[i].pkt.timestamp == now
      {
        assert i < |t.data| ==> u.data[i] == u.data[..|t.data|][i] == t.data[i];
      }
    }
  }

  /** Whatever a turn sends, also what the timer sends again, carries the time of this
      turn. */
  lemma TurnStamps(c: Config, s: W.State, t: WT.WireTurn)
    requires Made(c, s) && W.InRange(c, s)
    ensures t.SenderTurn? || t.EndTurn? ==> Stamped(s.data, WT.After(c, s, t).data, t.now)
    ensures t.ReceiverTurn? ==> Stamped(s.acks, WT.After(c, s, t).acks, t.now)
  {
    hide Made, W.Step, WT.Perform, WT.Heard, Stamped;
    if t.SenderTurn? || t.EndTurn? {
      PerformStamps(c, s, WT.Steps(c, s, t), t.now);
    } else if t.ReceiverTurn? {
      WT.OtherTurnIs(c, s, t);
      AnswerStamps(c, s, WT.Steps(c, s, t)[0]);
    }
  }

  lemma AnswerStamps(c: Config, s: W.State, a: W.WireAction)
    requires Made(c, s) && W.InRange(c, s) && a.DeliverData?
    ensures Stamped(s.acks, W.Step(c, s, a).acks, a.now)
  {
    MadeGives(c, s);
    if W.Enabled(c, s, a) {
      ArriveMakes(c, s.(data := s.data[1..]), Decode(s.data[0].bytes + a.rest, |s.data[0].bytes|), a.now);
    }
    hide Made, W.WireInv, Decode, W.Arrive, S.InRange, S.Sendable, R.Valid, R.Indexed, S.RingInv, AcksMade;
  }

  // ---------------------------------------------------------------------------
  // Over the network that repeats

  ghost predicate NetMade(c: Config, n: WN.WireNet) {
    Made(c, n.sys) && DataMade(c, n.dataSent) && AcksMade(c, n.acksSent)
  }

  lemma AppendedMade(c: Config, s: W.State, s': W.State)
    requires DataMade(c, s'.data) && AcksMade(c, s'.acks)
    ensures DataMade(c, N.Appended(s.data, s'.data)) && AcksMade(c, N.Appended(s.acks, s'.acks))
  {
    hide DataSentIn, AckSentIn;
  }

  lemma ConcatMade(c: Config, p: seq<W.Datagram<Message>>, q: seq<W.Datagram<Message>>,
                   r: seq<W.Datagram<Ack>>, t: seq<W.Datagram<Ack>>)
    ensures DataMade(c, p) && DataMade(c, q) ==> DataMade(c, p + q)
    ensures AcksMade(c, r) && AcksMade(c, t) ==> AcksMade(c, r + t)
    ensures p + [] == p && r + [] == r
  {
    hide DataSentIn, AckSentIn;
  }

  lemma LoopMakes(c: Config, n: WN.WireNet, t: WT.WireTurn)
    requires W.InRange(c, n.sys) && NetMade(c, n)
    ensures NetMade(c, WN.Happen(c, n, WN.Loop(t)))
  {
    PerformMakes(c, n.sys, WT.Steps(c, n.sys, t));
    var s, s' := n.sys, WT.After(c, n.sys, t);
    AppendedMade(c, s, s');
    ConcatMade(c, n.dataSent, N.Appended(s.data, s'.data), n.acksSent, N.Appended(s.acks, s'.acks));
    hide W.WireInv, Rings, DataMade, AcksMade, WT.Perform, WT.Steps, R.Valid;
  }

  /** A datagram that arrives again. */
  lemma RepeatMakes(c: Config, n: WN.WireNet, e: WN.WireEvent)
    requires W.InRange(c, n.sys) && NetMade(c, n) && WN.NetInv(c, n) && !e.Loop?
    requires Rings(c, W.Abstract(WN.Happen(c, n, e).sys)) && W.WireInv(c, WN.Happen(c, n, e).sys)
    ensures NetMade(c, WN.Happen(c, n, e))
  {
    hide W.WireInv, Rings, DataSentIn, AckSentIn, WT.After, R.Valid, W.Abstract, WN.NetInv;
  }

  lemma {:induction false} NetMadeAlways(c: Config, events: seq<WN.WireEvent>)
    requires c.Valid()
    ensures NetMade(c, WN.NetRun(c, events))
  {
    hide WN.Happen, Rings, W.WireInv, Made, DataMade, AcksMade, W.Abstract, R.Valid;
    if events == [] {
      NothingSent(c);
    } else {
      var past, e := events[..|events| - 1], events[|events| - 1];
      var n := WN.NetRun(c, past);
      NetMadeAlways(c, past);
      WN.NetRunRefines(c, past);
      if e.Loop? {
        LoopMakes(c, n, e.turn);
      } else {
        WN.NetRunRefines(c, events);
        N.NetRingsAlways(c, WN.EventsMeant(c, events));
        RepeatMakes(c, n, e);
      }
    }
  }

  lemma NothingSent(c: Config)
    requires c.Valid()
    ensures NetMade(c, WN.NetRun(c, []))
  {
    hide Made;
    InitiallyMade(c);
  }

  /** In every run of the loops, whatever is lost, damaged or repeated, all datagrams
      ever sent for block `a` have these bytes: a packet of type 1 without TR, the window
      1 for the first block and that of the receiver for all others, the number of the
      block modulo 256, its length and its bytes. So what the timer sends is what was
      sent first, but for the time. */
  lemma BlockAlwaysSentAs(c: Config, events: seq<WN.WireEvent>, i: nat)
    requires c.Valid() && i < |WN.NetRun(c, events).dataSent| && WN.NetRun(c, events).dataSent[i].msg.Data?
    ensures var d := WN.NetRun(c, events).dataSent[i];
            var a := d.msg.origin;
            && a < |c.blocks|
            && var w := if a == 0 then 1 else c.w;
               PacketAt(Pkt(1, 0, w, a % 256, |c.blocks[a]|, d.pkt.timestamp, c.blocks[a]), d.bytes)
  {
    hide WN.NetRun, Made, Encode, PacketAt;
    NetMadeAlways(c, events);
    WN.NetRunRefines(c, events);
    var d := WN.NetRun(c, events).dataSent[i];
    EncodeIffLayout(d.pkt, d.bytes);
  }

  /** And all packets that end the transfer, those with no block. */
  lemma EndAlwaysSentAs(c: Config, events: seq<WN.WireEvent>, i: nat)
    requires c.Valid() && i < |WN.NetRun(c, events).dataSent| && WN.NetRun(c, events).dataSent[i].msg.End?
    ensures var d := WN.NetRun(c, events).dataSent[i];
            && PacketAt(Pkt(1, 0, d.pkt.window, |c.blocks| % 256, 0, d.pkt.timestamp, []), d.bytes)
            && (d.pkt.window == 1 || d.pkt.window == c.w)
  {
    hide WN.NetRun, Made, Encode, PacketAt;
    NetMadeAlways(c, events);
    WN.NetRunRefines(c, events);
    var d := WN.NetRun(c, events).dataSent[i];
    EncodeIffLayout(d.pkt, d.bytes);
  }

  /** And all acknowledgements: type 2, the window of the receiver, and the number of
      blocks written when it was sent. */
  lemma AckAlwaysSentAs(c: Config, events: seq<WN.WireEvent>, i: nat)
    requires c.Valid() && i < |WN.NetRun(c, events).acksSent|
    ensures var d := WN.NetRun(c, events).acksSent[i];
            PacketAt(Pkt(2, 0, c.w, d.msg.origin % 256, 0, d.pkt.timestamp, []), d.bytes)
  {
    hide WN.NetRun, Made, Encode, PacketAt;
    NetMadeAlways(c, events);
    WN.NetRunRefines(c, events);
    var d := WN.NetRun(c, events).acksSent[i];
    EncodeIffLayout(d.pkt, d.bytes);
  }

  /** Two datagrams for the same block differ at most in the time and in the checksum
      that covers it. */
  lemma SentAgainTheSame(c: Config, events: seq<WN.WireEvent>, i: nat, j: nat)
    requires c.Valid() && i < |WN.NetRun(c, events).dataSent| && j < |WN.NetRun(c, events).dataSent|
    requires var sent := WN.NetRun(c, events).dataSent;
             sent[i].msg.Data? && sent[j].msg.Data? && sent[i].msg.origin == sent[j].msg.origin
    ensures var sent := WN.NetRun(c, events).dataSent;
            && sent[j].pkt == sent[i].pkt.(timestamp := sent[j].pkt.timestamp)
            && |sent[i].bytes| == |sent[j].bytes| >= 12
            && sent[i].bytes[..4] == sent[j].bytes[..4] && sent[i].bytes[12..] == sent[j].bytes[12..]
  {
    NetMadeAlways(c, events);
    WN.NetRunRefines(c, events);
    var sent := WN.NetRun(c, events).dataSent;
    hide WN.NetRun, Made, Encode;
    SameButTime(sent[i].pkt, sent[j].pkt);
  }

  lemma SameButTime(p: Pkt, q: Pkt)
    requires p.WellFormed() && q == p.(timestamp := q.timestamp)
    ensures |Encode(p)| == |Encode(q)| >= 12
    ensures Encode(p)[..4] == Encode(q)[..4] && Encode(p)[12..] == Encode(q)[12..]
  {
    hide Crc32, Network32, Swap16;
  }
}
