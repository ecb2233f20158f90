/** When the timer of the sender reads a slot that was never filled. */
module UnsetPointer {
  import opened Common
  import opened Ring
  import opened Protocol
  import opened Safety
  import opened FileSize
  import opened Turns
  import opened Leading
  import S = SenderSpec
  import R = ReceiverSpec

  /** There are no blocks and no acknowledgements before the first block. */
  predicate DataAllowed(started: bool, q: seq<Message>) {
    forall i :: 0 <= i < |q| && q[i].Data? ==> started
  }

  predicate AcksAllowed(started: bool, w: nat, q: seq<Ack>) {
    forall i :: 0 <= i < |q| ==> q[i].window == w && started
  }

  /** What holds in every run whatsoever: the ring of the sender. */
  predicate Rings(c: Config, s: System) {
    && InRange(c, s) && S.RingInv(s.snd, c.blocks, c.w) && |s.rcv.ring| == c.w
    && DataAllowed(s.snd.started, s.data) && AcksAllowed(s.snd.started, c.w, s.acks)
  }

  lemma RingsSender(c: Config, s: System, a: Action)
    requires Rings(c, s) && Enabled(c, s, a) && (a.SendBlock? || a.Resend? || a.SendEnd?)
    ensures Rings(c, Step(c, s, a))
  {
    hide Slot, S.RingInv, S.LatestIn;
    RingInvGives(c, s);
    if a.SendBlock? {
      S.RingInvSend(s.snd, c.blocks, c.w);
      RingInvGives(c, Step(c, s, a));
    } else if a.Resend? {
      S.OldestMissingIff(s.snd, c.blocks, c.w);
      assert s.snd.started;
    } else {
      assert Step(c, s, a).data == s.data + [End(s.snd.seqExp)];
    }
  }

  lemma RingsChannels(c: Config, s: System, a: Action)
    requires Rings(c, s) && Enabled(c, s, a)
    requires a.DeliverData? || a.LoseData? || a.LoseAck? || a.ReadEnd? || a.LeaveLoop?
    ensures Rings(c, Step(c, s, a))
  {
    hide Slot, S.RingInv, R.Receive;
    match a
    case LoseData(i) => FewerAllowed(s.snd.started, c.w, s.data, i, s.acks, |s.acks|);
    case LoseAck(i) => FewerAllowed(s.snd.started, c.w, s.data, |s.data|, s.acks, i);
    case DeliverData =>
      FewerAllowed(s.snd.started, c.w, s.data, 0, s.acks, |s.acks|);
      assert s.data[1..] == Without(s.data, 0);
    case _ =>
  }

  lemma FewerAllowed(started: bool, w: nat, data: seq<Message>, i: nat, acks: seq<Ack>, j: nat)
    requires DataAllowed(started, data) && AcksAllowed(started, w, acks)
    ensures i < |data| ==> DataAllowed(started, Without(data, i)) && (data[i].Data? ==> started)
    ensures j < |acks| ==> AcksAllowed(started, w, Without(acks, j))
  {
    if j < |acks| {
      forall k | 0 <= k < |acks| - 1
        ensures Without(acks, j)[k].window == w && started
      {
        assert Without(acks, j)[k] == acks[if k < j then k else k + 1];
      }
    }
  }

  lemma RingsAck(c: Config, s: System)
    requires Rings(c, s) && Enabled(c, s, DeliverAck)
    ensures Rings(c, Step(c, s, DeliverAck))
  {
    hide Slot, S.RingInv, S.Acknowledge;
    S.RingInvAcknowledge(s.snd, c.blocks, c.w, s.acks[0].num);
    RingInvGives(c, s);
    RingInvGives(c, Step(c, s, DeliverAck));
    AcknowledgeKeepsCount(s.snd, s.acks[0].num, s.acks[0].window);
  }

  lemma AcknowledgeKeepsCount(s: S.Sender, num: nat, window: nat)
    requires S.InRange(s) && num < 256 && window <= MAX_WINDOW_SIZE
    ensures S.Acknowledge(s, num, window).seqInd == s.seqInd
  {
  }

  lemma RingsStep(c: Config, s: System, a: Action)
    requires Rings(c, s)
    ensures Rings(c, Step(c, s, a))
  {
    assert InRange(c, s);
    hide Rings, Slot, Deliver, TakeAck, S.Oldest, S.MayRead;
    if Enabled(c, s, a) {
      match a
      case SendBlock => RingsSender(c, s, a);
      case Resend => RingsSender(c, s, a);
      case SendEnd => RingsSender(c, s, a);
      case DeliverAck => RingsAck(c, s);
      case _ => RingsChannels(c, s, a);
    }
  }

  lemma {:induction false} RingsAlways(c: Config, run: seq<Action>)
    requires c.Valid()
    ensures Rings(c, Run(c, run))
  {
    if run == [] {
      S.RingInvInitially(c.blocks, c.w);
    } else {
      hide Rings, Step;
      RingsAlways(c, run[..|run| - 1]);
      RingsStep(c, Run(c, run[..|run| - 1]), run[|run| - 1]);
    }
  }

  /** After any run at all, the slot of the oldest packet is empty exactly if its
      position was never reached. */
  lemma OldestMissing(c: Config, turns: seq<Turn>)
    requires c.Valid()
    ensures var s := TurnRun(c, turns);
            S.RingInv(s.snd, c.blocks, c.w) && (S.Oldest(s.snd).None? <==> s.snd.smallInd >= s.Next())
  {
    hide S.RingInv, S.Oldest;
    TurnsAreSteps(c, turns);
    RingsAlways(c, Actions(c, turns));
    S.OldestMissingIff(TurnRun(c, turns).snd, c.blocks, c.w);
  }

  /** As long as the sender keeps to the window, that is when everything sent is
      acknowledged and the window was never filled. */
  lemma OldestMissingInRoom(c: Config, run: seq<Action>)
    requires c.Valid() && Safety.SendsInRoom(c, run)
    ensures var s := Run(c, run); S.Oldest(s.snd).None? <==> s.base == s.Next() < s.snd.window
  {
    hide S.RingInv, S.Oldest, ReceiverInv, DataInv, AckInv, Run, SendsInRoom, Slot;
    FlowAlways(c, run);
    var s := Run(c, run);
    S.OldestMissingIff(s.snd, c.blocks, c.w);
    if s.base < s.snd.window {
      SlotSmall(s.base, s.snd.window);
    }
  }

  /** When the last block of a file shorter than the window has just been sent, it
      is not acknowledged. */
  predicate Covered(c: Config, s: System) {
    s.phase == Reading && s.Next() == |c.blocks| ==> s.base < |c.blocks|
  }

  lemma ShortFileReadsOn(c: Config, s: System)
    requires S.RingInv(s.snd, c.blocks, c.w) && 2 <= |c.blocks| == s.Next() < c.w
    ensures S.MayRead(s.snd)
  {
    hide S.KeepsLatest, S.RestEmpty;
  }

  lemma CoveredSender(c: Config, s: System, arrives: bool)
    requires Inv(c, s) && TestInv(c, s) && Covered(c, s) && 2 <= |c.blocks| < c.w
    requires Inv(c, After(c, s, SenderTurn(arrives)))
    ensures Covered(c, After(c, s, SenderTurn(arrives)))
  {
    hide Slot, S.RingInv, R.Pending, R.Valid, After, S.MayRead, S.Oldest, TakeAck, TestInv;
    RingInvGives(c, s);
    if s.phase == Reading {
      SenderTurnIs(c, s, arrives);
      if s.Next() == |c.blocks| {
        ShortFileReadsOn(c, s);
      } else {
        BaseBehind(c, After(c, s, SenderTurn(arrives)));
      }
    } else {
      assert After(c, s, SenderTurn(arrives)) == s by { NoTurn(c, s, arrives); }
    }
  }

  lemma NoTurn(c: Config, s: System, arrives: bool)
    requires InRange(c, s) && s.phase != Reading
    ensures After(c, s, SenderTurn(arrives)) == s
  {
  }

  lemma CoveredOther(c: Config, s: System, t: Turn)
    requires InRange(c, s) && Covered(c, s) && !t.SenderTurn?
    ensures Covered(c, After(c, s, t))
  {
    hide After, S.MayRead, S.Oldest, R.Receive;
    OtherTurnIs(c, s, t);
  }

  lemma {:induction false} CoveredAlways(c: Config, turns: seq<Turn>)
    requires c.Valid() && 2 <= |c.blocks| < c.w
    ensures Covered(c, TurnRun(c, turns)) && Inv(c, TurnRun(c, turns)) && TestInv(c, TurnRun(c, turns))
  {
    TurnsAreSteps(c, turns);
    TestAlways(c, Actions(c, turns));
    hide Inv, TestInv, After, Covered;
    if turns == [] {
      InitiallyCovered(c);
    } else {
      var past, t := turns[..|turns| - 1], turns[|turns| - 1];
      CoveredAlways(c, past);
      if t.SenderTurn? {
        CoveredSender(c, TurnRun(c, past), t.arrives);
      } else {
        CoveredOther(c, TurnRun(c, past), t);
      }
    }
  }

  lemma InitiallyCovered(c: Config)
    requires |c.blocks| > 0
    ensures Covered(c, Initial(c))
  {
  }

  /** The slot is filled if the test stops the sender, or if the file is at least as
      long as the window, or if some block is not acknowledged. */
  lemma NotUnset(c: Config, s: System, t: Turn)
    requires InRange(c, s) && S.RingInv(s.snd, c.blocks, c.w) && (S.Oldest(s.snd).None? <==> s.snd.smallInd >= s.Next())
    requires |c.blocks| < c.w ==> Inv(c, s) && Covered(c, s)
    ensures !ReadsUnset(c, s, t)
  {
    hide S.KeepsLatest, S.RestEmpty, S.Oldest, ReceiverInv, DataInv, AckInv;
    if ReadsUnset(c, s, t) {
      assert S.MayRead(s.snd);
      assert s.Next() == |c.blocks|;
      if |c.blocks| < c.w {
        SlotAtMost(s.base, s.snd.window);
      }
      assert false;
    }
  }

  lemma SlotAtMost(a: nat, w: nat)
    requires w > 0
    ensures Slot(a, w) <= a
  {
  }

  lemma {:induction false} AlwaysDefined(c: Config, turns: seq<Turn>)
    requires c.Valid() && (|c.blocks| >= 2 || |c.blocks| >= c.w)
    ensures Defined(c, turns)
  {
    hide TurnRun, ReadsUnset, Inv, Covered, S.Oldest, S.RingInv;
    if turns != [] {
      var past := turns[..|turns| - 1];
      AlwaysDefined(c, past);
      OldestMissing(c, past);
      if |c.blocks| < c.w {
        CoveredAlways(c, past);
      }
      NotUnset(c, TurnRun(c, past), turns[|turns| - 1]);
    }
  }

  /** A file without blocks: the first turn reads the end, and no slot is filled. */
  lemma EmptyFileUnset(c: Config)
    requires c.Valid() && |c.blocks| == 0
    ensures !Defined(c, [SenderTurn(false)])
  {
    assert [SenderTurn(false)][..0] == [];
    assert TurnRun(c, []) == Initial(c);
  }

  /** The only block is acknowledged, and no later acknowledgement arrives in the
      turn that reads the end. */
  lemma OneBlockUnset(c: Config) returns (turns: seq<Turn>)
    requires c.Valid() && |c.blocks| == 1 && c.w >= 2
    ensures !Defined(c, turns)
  {
    hide TurnRun, Defined, Ahead, UnderWay, Acknowledging, Step, S.MayRead, S.Oldest, ReadsUnset;
    var lead := Lead(c, 0);
    AnsweredIs(c, TurnRun(c, lead), 0);
    OtherTurns(c, lead, ReceiverTurn);
    var past := lead + [ReceiverTurn];
    AcknowledgingGives(c, TurnRun(c, past), 0);
    SenderTurns(c, past, true);
    OnlyBlock(c, TurnRun(c, past));
    turns := past + [SenderTurn(true)] + [SenderTurn(false)];
    TurnExtend(c, past + [SenderTurn(true)], SenderTurn(false));
  }

  lemma OnlyBlock(c: Config, s: System)
    requires Acknowledging(c, s, 0) && |c.blocks| == 1 && c.w >= 2
    ensures InRange(c, s) && !S.MayRead(s.snd)
    ensures ReadsUnset(c, Step(c, s, DeliverAck), SenderTurn(false))
  {
    hide Slot, S.RingInv, R.Pending, R.Valid, S.MayRead, S.Acknowledge, S.Oldest;
    RingInvGives(c, s);
    RoomIsDistance(c, s);
    assert AckOk(c, s, s.acks[0]);
    SlideMovesBase(c, s, s.acks[0]);
    InvStep(c, s, DeliverAck);
    var s' := Step(c, s, DeliverAck);
    RingInvGives(c, s');
    RoomIsDistance(c, s');
    SlotSmall(1, c.w);
    S.OldestMissingIff(s'.snd, c.blocks, c.w);
  }

  /** No run of the loops reads an unset pointer if and only if the file has at
      least two blocks, or one block and the window is 1. */
  lemma UnsetLimit(c: Config)
    requires c.Valid()
    ensures (forall turns: seq<Turn> :: Defined(c, turns)) <==> |c.blocks| >= 2 || (|c.blocks| == 1 && c.w == 1)
  {
    if |c.blocks| >= 2 || |c.blocks| >= c.w {
      forall turns: seq<Turn>
        ensures Defined(c, turns)
      {
        AlwaysDefined(c, turns);
      }
    } else if |c.blocks| == 0 {
      EmptyFileUnset(c);
    } else {
      var turns := OneBlockUnset(c);
    }
  }
}
