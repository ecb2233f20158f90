/** One acknowledgement that is overtaken and one lost block: a run, with the window 3
    of the code, from which the transfer never gets on. */
module Stranded {
  import opened Common
  import opened Ring
  import opened Protocol
  import opened Safety
  import opened Turns
  import opened Leading
  import opened Network
  import opened AckDisorder
  import LossFree
  import Overtaking
  import S = SenderSpec
  import R = ReceiverSpec

  function Msg(c: Config, i: nat): Message
    requires i < |c.blocks| && i < 256
  {
    Data(i, c.blocks[i], i)
  }

  function Named(k: nat): Ack
    requires k < 256
  {
    Ack(k, 3, k)
  }

  /** The sender was told number `acked` and has sent `next` blocks, the receiver has
      written `written` blocks; `data` and `acks` are under way. */
  datatype Point = Point(acked: nat, next: nat, data: seq<Message>, acks: seq<Ack>, written: nat)

  /** The next packet is written and acknowledged. */
  function Received(p: Point): Point
    requires p.data != [] && p.written < 6
  {
    p.(data := p.data[1..], acks := p.acks + [Named(p.written + 1)], written := p.written + 1)
  }

  /** The transfer is at this point, and the receiver holds nothing back. */
  predicate At(c: Config, s: System, p: Point) {
    && c.w == 3 && |c.blocks| >= 6 && Core(c, s) && s.phase == Reading && !s.rcv.ended
    && s.snd.window == 3 && s.snd.smallSeq == p.acked && s.Next() == p.next && s.Written() == p.written >= 1
    && s.data == p.data && s.acks == p.acks && R.Pending(s.rcv) == map[]
  }

  lemma AtGives(c: Config, s: System, p: Point)
    requires At(c, s, p) && p.next <= 6
    ensures InRange(c, s) && s.phase == Reading && s.acks == p.acks && s.data == p.data && s.Next() == p.next
    ensures S.MayRead(s.snd) <==> p.next - p.acked < 3
    ensures p.next < |c.blocks| ==> (Enabled(c, s, SendBlock) <==> S.MayRead(s.snd))
  {
    hide S.KeepsLatest, S.RestEmpty, ReceiverInv, DataInv;
  }

  lemma SendAt(c: Config, s: System, p: Point)
    requires At(c, s, p) && p.next < 6 && p.next - p.acked < 3
    ensures InRange(c, s)
    ensures At(c, Step(c, s, SendBlock), p.(next := p.next + 1, data := p.data + [Msg(c, p.next)]))
  {
    AtGives(c, s, p);
    hide Slot, S.RingInv, R.Pending, ReceiverInv, DataInv, S.MayRead, S.Send;
    RingInvGives(c, s);
    SendGives(s.snd, c.blocks[s.snd.seqInd]);
    CoreSendBlock(c, s);
  }

  lemma TakeAt(c: Config, s: System, p: Point, k: nat)
    requires At(c, s, p) && k < 256 && p.acks != [] && p.acks[0] == Named(k) && p.next >= 1
    ensures InRange(c, s)
    ensures At(c, Step(c, s, DeliverAck), p.(acked := k, acks := p.acks[1..]))
  {
    hide Slot, R.Pending, ReceiverInv, DataInv, S.Acknowledge, S.RingInv;
    CoreGives(c, s);
    CoreAcks(c, s, p.acks[1..]);
    CoreTakeAck(c, s.(acks := p.acks[1..]), p.acks[0]);
  }

  lemma DeliverAt(c: Config, s: System, p: Point)
    requires At(c, s, p) && p.written < 6 && p.data != [] && p.data[0] == Msg(c, p.written)
    ensures InRange(c, s)
    ensures At(c, Step(c, s, DeliverData), Received(p))
  {
    hide Slot, R.Pending, S.RingInv, R.Receive, DataInv;
    CoreDeliverData(c, s);
    LossFree.ReceiveInOrder(c, s.rcv, p.data[0]);
  }

  lemma LoseAt(c: Config, s: System, p: Point)
    requires At(c, s, p) && p.data != []
    ensures InRange(c, s)
    ensures At(c, Step(c, s, LoseData(0)), p.(data := p.data[1..]))
  {
    hide Slot, R.Pending, S.RingInv, ReceiverInv, DataInv;
    CoreLose(c, s, LoseData(0));
    assert Without(p.data, 0) == p.data[1..];
  }

  /** The first block is acknowledged. */
  lemma StartAt(c: Config, s: System)
    requires Acknowledging(c, s, 0) && c.w == 3 && |c.blocks| >= 6
    ensures InRange(c, s) && !S.MayRead(s.snd)
    ensures At(c, Step(c, s, DeliverAck), Point(1, 1, [], [], 1))
  {
    hide Slot, S.RingInv, R.Pending, R.Valid, S.MayRead, S.Acknowledge;
    RingInvGives(c, s);
    RoomIsDistance(c, s);
    assert AckOk(c, s, s.acks[0]);
    SlideMovesBase(c, s, s.acks[0]);
    InvStep(c, s, DeliverAck);
    InvIsCore(c, Step(c, s, DeliverAck));
  }

  // ---------------------------------------------------------------------------
  // The events

  /** A defined run in which only acknowledgements are repeated, and where it has
      come to. */
  predicate Reached(c: Config, events: seq<Event>, p: Point, slips: int)
    requires c.Valid()
  {
    && NetDefined(c, events) && DataInOrder(events)
    && At(c, NetRun(c, events).sys, p) && NetRun(c, events).acked == p.acked && NetRun(c, events).slips == slips
  }

  lemma Next(c: Config, past: seq<Event>, e: Event, p: Point, slips: int)
    requires c.Valid() && Reached(c, past, p, slips) && !e.RepeatData?
    ensures NetRun(c, past + [e]) == Happen(c, NetRun(c, past), e) && DataInOrder(past + [e])
    ensures NetDefined(c, past + [e]) <==> (e.Loop? ==> !ReadsUnset(c, NetRun(c, past).sys, e.turn))
  {
    hide NetRun, At, Happen, ReadsUnset;
    NetExtend(c, past, e);
  }

  lemma SendEvent(c: Config, past: seq<Event>, p: Point, slips: int)
    requires c.Valid() && Reached(c, past, p, slips) && p.next < 6 && p.next - p.acked < 3
    ensures Reached(c, past + [Loop(SenderTurn(false))],
                    p.(next := p.next + 1, data := p.data + [Msg(c, p.next)]), slips)
    ensures NetRun(c, past + [Loop(SenderTurn(false))]).acksSent == NetRun(c, past).acksSent
  {
    var s := NetRun(c, past).sys;
    Next(c, past, Loop(SenderTurn(false)), p, slips);
    AtGives(c, s, p);
    SendAt(c, s, p);
    hide At, NetRun, Step, S.MayRead, S.Oldest, After;
    SenderTurnIs(c, s, false);
  }

  lemma SendTakeEvent(c: Config, past: seq<Event>, p: Point, slips: int, k: nat)
    requires c.Valid() && Reached(c, past, p, slips) && 1 <= p.next < 6 && p.next - p.acked < 3 && k < 256
    requires p.acks != [] && p.acks[0] == Named(k)
    ensures Reached(c, past + [Loop(SenderTurn(true))],
                    Point(k, p.next + 1, p.data + [Msg(c, p.next)], p.acks[1..], p.written),
                    Slipped(slips, p.acked, k))
  {
    var s, q := NetRun(c, past).sys, p.(next := p.next + 1, data := p.data + [Msg(c, p.next)]);
    Next(c, past, Loop(SenderTurn(true)), p, slips);
    AtGives(c, s, p);
    SendAt(c, s, p);
    TakeAt(c, Step(c, s, SendBlock), q, k);
    hide At, NetRun, Step, S.MayRead, S.Oldest, After, Slipped;
    SenderTurnIs(c, s, true);
  }

  lemma TakeEvent(c: Config, past: seq<Event>, p: Point, slips: int, k: nat)
    requires c.Valid() && Reached(c, past, p, slips) && 1 <= p.next <= 6 && p.next - p.acked >= 3 && k < 256
    requires p.acks != [] && p.acks[0] == Named(k)
    ensures Reached(c, past + [Loop(SenderTurn(true))], p.(acked := k, acks := p.acks[1..]), Slipped(slips, p.acked, k))
  {
    var s := NetRun(c, past).sys;
    Next(c, past, Loop(SenderTurn(true)), p, slips);
    AtGives(c, s, p);
    TakeAt(c, s, p, k);
    hide At, NetRun, Step, S.MayRead, S.Oldest, After, Slipped;
    SenderTurnIs(c, s, true);
  }

  lemma ReceiveEvent(c: Config, past: seq<Event>, p: Point, slips: int)
    requires c.Valid() && Reached(c, past, p, slips) && p.written < 6 && p.next <= 6
    requires p.data != [] && p.data[0] == Msg(c, p.written)
    ensures var past' := past + [Loop(ReceiverTurn)];
            && Reached(c, past', Received(p), slips)
            && NetRun(c, past').acksSent == NetRun(c, past).acksSent + [Named(p.written + 1)]
  {
    var s := NetRun(c, past).sys;
    Next(c, past, Loop(ReceiverTurn), p, slips);
    AtGives(c, s, p);
    DeliverAt(c, s, p);
    AtAcks(c, Step(c, s, DeliverData), Received(p));
    ReceiverHappens(c, NetRun(c, past), p);
    OnlySenderReads(c, s, ReceiverTurn);
    hide At, NetRun, Step, Happen, ReadsUnset, Received;
  }

  lemma ReceiverHappens(c: Config, n: Net, p: Point)
    requires NetInRange(c, n) && p.data != [] && p.written < 6 && n.sys.acks == p.acks
    requires Step(c, n.sys, DeliverData).acks == Received(p).acks
    ensures Happen(c, n, Loop(ReceiverTurn)) ==
            n.(sys := Step(c, n.sys, DeliverData), acksSent := n.acksSent + [Named(p.written + 1)])
  {
    hide Step, After;
    OtherTurnIs(c, n.sys, ReceiverTurn);
  }

  lemma AtAcks(c: Config, s: System, p: Point)
    requires At(c, s, p)
    ensures s.acks == p.acks && s.data == p.data
  {
  }

  lemma LoseEvent(c: Config, past: seq<Event>, p: Point, slips: int)
    requires c.Valid() && Reached(c, past, p, slips) && p.data != [] && p.next <= 6
    ensures Reached(c, past + [Loop(DropData(0))], p.(data := p.data[1..]), slips)
  {
    var s := NetRun(c, past).sys;
    Next(c, past, Loop(DropData(0)), p, slips);
    AtGives(c, s, p);
    LoseAt(c, s, p);
    hide At, NetRun, Step, S.MayRead, S.Oldest, After;
    OtherTurnIs(c, s, DropData(0));
  }

  lemma RepeatEvent(c: Config, past: seq<Event>, p: Point, slips: int, i: nat)
    requires c.Valid() && Reached(c, past, p, slips) && i < |NetRun(c, past).acksSent|
    ensures Reached(c, past + [RepeatAck(i)], p.(acks := [NetRun(c, past).acksSent[i]] + p.acks), slips)
  {
    var n := NetRun(c, past);
    Next(c, past, RepeatAck(i), p, slips);
    hide NetRun, Core;
    assert NetInRange(c, n);
    CoreAcks(c, n.sys, [n.acksSent[i]] + n.sys.acks);
  }

  /** The first block has arrived. */
  predicate Started(c: Config, events: seq<Event>)
    requires c.Valid()
  {
    var n := NetRun(c, events);
    NetDefined(c, events) && DataInOrder(events) && Acknowledging(c, n.sys, 0) && n.acked == 0 && n.slips == 0
  }

  lemma NothingTaken(c: Config, n: Net, t: Turn)
    requires NetInRange(c, n) && !Takes(n.sys, t)
    ensures var n' := Happen(c, n, Loop(t)); n'.sys == After(c, n.sys, t) && n'.acked == n.acked && n'.slips == n.slips
  {
    hide After;
  }

  lemma FirstArrives(c: Config) returns (events: seq<Event>)
    requires c.Valid() && |c.blocks| >= 6
    ensures Started(c, events)
  {
    hide NetRun, NetDefined, Ahead, UnderWay, Acknowledging, Step, S.MayRead, S.Oldest, After, Happen, ReadsUnset;
    var e1 := [] + [Loop(SenderTurn(false))];
    events := e1 + [Loop(ReceiverTurn)];
    NetExtend(c, [], Loop(SenderTurn(false)));
    NetExtend(c, e1, Loop(ReceiverTurn));
    NothingYet(c);
    NothingTaken(c, NetInitial(c), SenderTurn(false));
    FirstIsDefined(c);
    var s := NetRun(c, e1).sys;
    AheadGives(c, s, 0);
    NothingTaken(c, NetRun(c, e1), ReceiverTurn);
    OnlySenderReads(c, s, ReceiverTurn);
    AnsweredIs(c, s, 0);
    OtherTurnIs(c, s, ReceiverTurn);
  }

  lemma FirstIsDefined(c: Config)
    requires c.Valid() && |c.blocks| >= 6
    ensures !ReadsUnset(c, Initial(c), SenderTurn(false))
    ensures var s := After(c, Initial(c), SenderTurn(false)); Ahead(c, s, 0) && UnderWay(s, 0)
  {
    hide Ahead, UnderWay, Step, S.MayRead, S.Oldest, After;
    FirstBlock(c);
    SenderTurnIs(c, Initial(c), false);
  }

  lemma StartEvents(c: Config) returns (events: seq<Event>)
    requires c.Valid() && c.w == 3 && |c.blocks| >= 6
    ensures Reached(c, events, Point(1, 1, [], [], 1), 0)
  {
    hide NetRun, NetDefined, Acknowledging, Step, S.MayRead, S.Oldest, After, At;
    var e := FirstArrives(c);
    var s := NetRun(c, e).sys;
    events := e + [Loop(SenderTurn(true))];
    NetExtend(c, e, Loop(SenderTurn(true)));
    AcknowledgingGives(c, s, 0);
    AcknowledgesFirst(c, s);
    StartAt(c, s);
    SenderTurnIs(c, s, true);
  }

  lemma NothingYet(c: Config)
    requires c.Valid()
    ensures NetRun(c, []) == NetInitial(c) && NetDefined(c, [])
  {
  }

  lemma AcknowledgesFirst(c: Config, s: System)
    requires Acknowledging(c, s, 0)
    ensures s.acks[0].origin == 1
  {
  }

  /** Blocks 1 and 2 are sent and arrive; both answers are under way. */
  lemma TwoAnswers(c: Config) returns (events: seq<Event>)
    requires c.Valid() && c.w == 3 && |c.blocks| >= 6
    ensures Reached(c, events, Point(1, 3, [], [Named(2), Named(3)], 3), 0)
    ensures var sent := NetRun(c, events).acksSent; sent != [] && sent[|sent| - 1] == Named(3)
  {
    hide Reached, NetRun;
    var e := StartEvents(c);
    var p0 := Point(1, 1, [], [], 1);
    var p1 := p0.(next := 2, data := [] + [Msg(c, 1)]);
    var p2 := p1.(next := 3, data := p1.data + [Msg(c, 2)]);
    var p3 := p2.(data := p2.data[1..], acks := [] + [Named(2)], written := 2);
    var p4 := p3.(data := p3.data[1..], acks := p3.acks + [Named(3)], written := 3);
    SendEvent(c, e, p0, 0);
    var e1 := e + [Loop(SenderTurn(false))];
    SendEvent(c, e1, p1, 0);
    var e2 := e1 + [Loop(SenderTurn(false))];
    ReceiveEvent(c, e2, p2, 0);
    var e3 := e2 + [Loop(ReceiverTurn)];
    ReceiveEvent(c, e3, p3, 0);
    events := e3 + [Loop(ReceiverTurn)];
    assert p4 == Point(1, 3, [], [Named(2), Named(3)], 3);
  }

  /** The second answer overtakes the first; blocks 3, 4 and 5 are sent, and block 3
      is lost. */
  lemma Overtaken(c: Config) returns (events: seq<Event>)
    requires c.Valid() && c.w == 3 && |c.blocks| >= 6
    ensures Reached(c, events, Point(3, 6, [Msg(c, 4), Msg(c, 5)], [], 3), 1)
  {
    hide Reached, NetRun;
    var e := TwoAnswers(c);
    var p := Point(1, 3, [], [Named(2), Named(3)], 3);
    var p0 := p.(acks := [Named(3)] + p.acks);
    RepeatEvent(c, e, p, 0, |NetRun(c, e).acksSent| - 1);
    var e0 := e + [RepeatAck(|NetRun(c, e).acksSent| - 1)];
    SendTakeEvent(c, e0, p0, 0, 3);
    var e1 := e0 + [Loop(SenderTurn(true))];
    var p1 := Point(3, 4, [] + [Msg(c, 3)], p0.acks[1..], 3);
    SendTakeEvent(c, e1, p1, 0, 2);
    var e2 := e1 + [Loop(SenderTurn(true))];
    var p2 := Point(2, 5, p1.data + [Msg(c, 4)], p1.acks[1..], 3);
    TakeEvent(c, e2, p2, 1, 3);
    var e3 := e2 + [Loop(SenderTurn(true))];
    var p3 := p2.(acked := 3, acks := p2.acks[1..]);
    SendEvent(c, e3, p3, 1);
    var e4 := e3 + [Loop(SenderTurn(false))];
    var p4 := p3.(next := 6, data := p3.data + [Msg(c, 5)]);
    LoseEvent(c, e4, p4, 1);
    events := e4 + [Loop(DropData(0))];
    assert p4.(data := p4.data[1..]) == Point(3, 6, [Msg(c, 4), Msg(c, 5)], [], 3);
  }

  // ---------------------------------------------------------------------------
  // The trap

  /** The window is full from block 3 on, the timer stands at block 4, and nothing
      under way brings block 3. */
  predicate Trapped(c: Config, s: System) {
    && c.w == 3 && |c.blocks| >= 6 && InRange(c, s) && S.RingInv(s.snd, c.blocks, 3)
    && s.phase == Reading && !s.rcv.ended
    && s.snd.window == 3 && s.snd.smallSeq == 3 && s.snd.smallInd == 1 && s.Next() == 6
    && R.Valid(s.rcv) && |s.rcv.ring| == 3 && s.rcv.ring[s.rcv.index].None? && s.Written() == 3
    && 3 !in R.Pending(s.rcv) && Ahead3(s.data) && Names3(s.acks)
  }

  predicate Ahead3(q: seq<Message>) {
    forall i :: 0 <= i < |q| ==> q[i].Data? && 4 <= q[i].origin < 6 && q[i].num == q[i].origin
  }

  predicate Names3(q: seq<Ack>) {
    forall i :: 0 <= i < |q| ==> q[i].num == 3 && q[i].window == 3
  }

  lemma TrapStops(c: Config, s: System)
    requires Trapped(c, s)
    ensures InRange(c, s) && !S.MayRead(s.snd)
  {
    hide S.KeepsLatest, S.RestEmpty;
  }

  lemma TrapResends(c: Config, s: System)
    requires Trapped(c, s)
    ensures InRange(c, s) && Trapped(c, Step(c, s, Resend))
  {
    hide Slot, S.RingInv, R.Pending, R.Valid, S.Oldest;
    S.OldestIs(s.snd, c.blocks, 3);
    assert S.LatestIn(1, 6, 3) == 4 by { SlotSmall(1, 3); SlotUnique(4, 3, 1, 1); }
  }

  lemma TrapTakes(c: Config, s: System)
    requires Trapped(c, s)
    ensures InRange(c, s) && Trapped(c, Step(c, s, DeliverAck))
  {
    hide Slot, R.Pending, R.Valid, S.KeepsLatest, S.RestEmpty;
    if s.acks != [] {
      assert s.acks[0].num == 3 && s.acks[0].window == 3;
      assert S.Acknowledge(s.snd, 3, 3) == s.snd;
    }
  }

  lemma TrapReceives(c: Config, s: System)
    requires Trapped(c, s)
    ensures InRange(c, s) && Trapped(c, Step(c, s, DeliverData))
  {
    hide Slot, S.RingInv, R.Pending, R.Valid, R.Receive;
    if s.data != [] {
      var m := s.data[0];
      assert m.Data? && 4 <= m.origin < 6 && m.num == m.origin;
      TrapHolds(s.rcv, m.origin, m.block);
    }
  }

  lemma TrapHolds(r: R.Receiver, a: nat, x: Block)
    requires R.Valid(r) && |r.ring| == 3 && r.ring[r.index].None? && |r.out| == 3 && 3 !in R.Pending(r) && 4 <= a < 6
    ensures var r' := R.Receive(r, a, x);
            && R.Valid(r') && |r'.ring| == 3 && r'.ring[r'.index].None? && |r'.out| == 3 && r'.ended == r.ended
            && 3 !in R.Pending(r') && r'.seqExp == 3
  {
    hide Slot, R.Pending, R.Receive;
    ReceiveAdds(r, a, x);
  }

  lemma TrapOther(c: Config, s: System, a: Action)
    requires Trapped(c, s) && (a.LoseData? || a.LoseAck? || a.SendEnd?)
    ensures InRange(c, s) && Trapped(c, Step(c, s, a))
  {
    hide Slot, S.RingInv, R.Pending, R.Valid;
  }

  lemma TrapTurn(c: Config, s: System, t: Turn)
    requires InRange(c, s) && Trapped(c, s)
    ensures Trapped(c, After(c, s, t))
  {
    TrapStops(c, s);
    var reading := s.phase == Reading;
    hide Trapped, Step, After, S.MayRead;
    if t.SenderTurn? {
      SenderTurnIs(c, s, t.arrives);
      TrapTakes(c, s);
      TrapResends(c, s);
    } else {
      OtherTurnIs(c, s, t);
      match t
      case EndTurn => TrapOther(c, s, SendEnd);
      case ReceiverTurn => TrapReceives(c, s);
      case DropData(i) => TrapOther(c, s, LoseData(i));
      case DropAck(i) => TrapOther(c, s, LoseAck(i));
      case SenderTurn(_) =>
    }
  }

  lemma {:induction false} TrappedForever(c: Config, events: seq<Event>, turns: seq<Turn>)
    requires c.Valid() && Trapped(c, NetRun(c, events).sys)
    ensures Trapped(c, NetRun(c, events + Loops(turns)).sys)
    decreases |turns|
  {
    hide Trapped, After;
    if turns == [] {
      assert events + Loops([]) == events;
    } else {
      var past, t := turns[..|turns| - 1], turns[|turns| - 1];
      TrappedForever(c, events, past);
      NetExtend(c, events + Loops(past), Loop(t));
      assert events + Loops(turns) == events + Loops(past) + [Loop(t)];
      TrapTurn(c, NetRun(c, events + Loops(past)).sys, t);
    }
  }

  lemma Trap(c: Config, events: seq<Event>)
    requires c.Valid() && |c.blocks| >= 6
    requires Reached(c, events, Point(3, 6, [Msg(c, 4), Msg(c, 5)], [], 3), 1)
    ensures Trapped(c, NetRun(c, events).sys)
  {
    Overtaking.NetSlidAlways(c, events);
    SlotUnique(259, 3, 86, 1);
    hide NetRun, Slot, R.Pending, R.Valid, S.KeepsLatest, S.RestEmpty, DataInv, S.Sendable;
  }

  /** With the code's window 3 and any file of at least six blocks: a defined run in
      which one acknowledgement is overtaken and one block lost, after which both
      sides are in their loops for ever, the timer resends block 4 in place of block
      3, and no further turns of the loops bring a fourth block over. */
  lemma OvertakenForever(c: Config) returns (events: seq<Event>)
    requires c.Valid() && c.w == 3 && |c.blocks| >= 6
    ensures NetDefined(c, events) && DataInOrder(events)
    ensures var n := NetRun(c, events);
            && n.acked == 3 < n.sys.Next() && n.slips == 1
            && S.Oldest(n.sys.snd).Some? && S.Oldest(n.sys.snd).value.num == 4
    ensures forall turns: seq<Turn> ::
              var s := NetRun(c, events + Loops(turns)).sys; s.phase == Reading && !s.rcv.ended && s.Written() == 3
  {
    hide NetRun, NetDefined, Trapped;
    events := Overtaken(c);
    Trap(c, events);
    TrapTimer(c, NetRun(c, events).sys);
    forall turns: seq<Turn>
      ensures var s := NetRun(c, events + Loops(turns)).sys; s.phase == Reading && !s.rcv.ended && s.Written() == 3
    {
      TrappedForever(c, events, turns);
      TrapGives(c, NetRun(c, events + Loops(turns)).sys);
    }
  }

  lemma TrapGives(c: Config, s: System)
    requires Trapped(c, s)
    ensures s.phase == Reading && !s.rcv.ended && s.Written() == 3 && s.Next() == 6
  {
  }

  lemma TrapTimer(c: Config, s: System)
    requires Trapped(c, s)
    ensures s.Next() == 6 && S.InRange(s.snd) && S.Oldest(s.snd).Some? && S.Oldest(s.snd).value.num == 4
  {
    hide Slot, S.RingInv, R.Pending, R.Valid, S.Oldest;
    S.OldestIs(s.snd, c.blocks, 3);
    assert S.LatestIn(1, 6, 3) == 4 by { SlotSmall(1, 3); SlotUnique(4, 3, 1, 1); }
  }
}
