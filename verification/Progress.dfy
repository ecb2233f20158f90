/** Losses and recovery: for which files a transfer that is still going on can
    always be completed by further turns of the two loops. */
module Progress {
  import opened Ring
  import opened Protocol
  import opened Safety
  import opened FileSize
  import opened Turns
  import S = SenderSpec
  import R = ReceiverSpec

  /** The channels are empty and both sides are still in their data loops. */
  predicate Quiet(c: Config, s: System) {
    && Inv(c, s) && FlowControlled(s)
    && s.phase == Reading && !s.rcv.ended && s.data == [] && s.acks == []
  }

  /** The oldest block is resent, delivered and acknowledged. */
  function Recover(c: Config, s: System): System
    requires InRange(c, s)
  {
    Step(c, Step(c, Step(c, s, Resend), DeliverData), DeliverAck)
  }

  /** Whether or not the receiver has the oldest block already, resending it
      moves the sender's window: the acknowledgement covers at least this
      block. */
  lemma RecoverMovesBase(c: Config, s: System)
    requires Quiet(c, s) && s.base < s.Next()
    ensures InRange(c, s) && Quiet(c, Recover(c, s)) && Recover(c, s).base > s.base && Recover(c, s).Next() == s.Next()
  {
    hide Slot, S.RingInv, R.Pending, R.Valid, R.Receive, S.Acknowledge, S.Oldest, S.LatestIn, Inv;
    InvInRange(c, s);
    var s1 := Step(c, s, Resend);
    ResendQuiet(c, s);
    FlowStep(c, s, Resend);
    DeliverQuiet(c, s1);
    FlowStep(c, s1, DeliverData);
    var s2 := Step(c, s1, DeliverData);
    AckQuiet(c, s2);
    FlowStep(c, s2, DeliverAck);
  }

  lemma ResendQuiet(c: Config, s: System)
    requires Quiet(c, s) && s.base < s.Next()
    ensures InRange(c, s) && Enabled(c, s, Resend) && s.base < |c.blocks|
    ensures Step(c, s, Resend).data == [Data(s.base % 256, c.blocks[s.base], s.base)]
  {
    hide Slot, R.Pending, R.Valid;
    S.OldestIs(s.snd, c.blocks, c.w);
  }

  /** Delivering block `base`: it is written if it was missing, and in any case
      the receiver has gone past it. */
  lemma DeliverQuiet(c: Config, s: System)
    requires Inv(c, s) && FlowControlled(s) && !s.rcv.ended && s.acks == []
    requires |s.data| == 1 && s.data[0].Data? && s.data[0].origin == s.base
    ensures InRange(c, s)
    ensures var s' := Step(c, s, DeliverData);
            && s'.Written() > s.base && s'.data == [] && !s'.rcv.ended
            && s'.acks == [Ack(s'.rcv.seqExp, c.w, s'.Written())] && s'.snd == s.snd && s'.phase == s.phase
  {
    hide Slot, S.RingInv, R.Pending, R.Valid, R.Receive;
    assert Truthful(c, s, s.data[0]);
    RingInvGives(c, s);
    ReceiveAdds(s.rcv, s.base, s.data[0].block);
    if s.Written() == s.base {
      NextIsWritten(s.rcv, s.data[0].block);
    }
  }

  lemma AckQuiet(c: Config, s: System)
    requires Inv(c, s) && FlowControlled(s) && s.phase == Reading
    requires |s.acks| == 1 && s.acks[0].origin > s.base && s.data == []
    ensures InRange(c, s)
    ensures var s' := Step(c, s, DeliverAck);
            && s'.base == s.acks[0].origin && s'.Next() == s.Next() && s'.acks == [] && s'.data == []
            && s'.phase == s.phase && s'.rcv == s.rcv
  {
    hide Slot, S.RingInv, R.Pending, R.Valid, S.Acknowledge;
    RingInvGives(c, s);
    assert AckOk(c, s, s.acks[0]);
    SlideMovesBase(c, s, s.acks[0]);
  }

  /** The same as turns of the loops: while the test stops the sender, its timer
      runs out. */
  lemma RecoverTurns(c: Config, past: seq<Turn>) returns (turns: seq<Turn>)
    requires c.Valid() && Defined(c, past) && Quiet(c, TurnRun(c, past)) && !S.MayRead(TurnRun(c, past).snd)
    ensures past <= turns && Defined(c, turns)
    ensures var s, s' := TurnRun(c, past), TurnRun(c, turns); Quiet(c, s') && s'.base > s.base && s'.Next() == s.Next()
  {
    hide TurnRun, Defined, Step, S.MayRead, S.Oldest, Recover, Quiet;
    var s := TurnRun(c, past);
    StoppedIsBehind(c, s);
    SenderTurns(c, past, false);
    OtherTurns(c, past + [SenderTurn(false)], ReceiverTurn);
    StillStopped(c, s);
    SenderTurns(c, past + [SenderTurn(false)] + [ReceiverTurn], true);
    turns := past + [SenderTurn(false)] + [ReceiverTurn] + [SenderTurn(true)];
    assert TurnRun(c, turns) == Recover(c, s) by { RecoverIs(c, s); }
    RecoverMovesBase(c, s);
  }

  lemma RecoverIs(c: Config, s: System)
    requires InRange(c, s)
    ensures Recover(c, s) == Step(c, Step(c, Step(c, s, Resend), DeliverData), DeliverAck)
  {
    hide Step;
  }

  lemma StoppedIsBehind(c: Config, s: System)
    requires Quiet(c, s) && !S.MayRead(s.snd)
    ensures s.phase == Reading && s.base < s.Next() && S.Oldest(s.snd).Some?
  {
    hide Slot, S.RingInv, R.Pending, R.Valid, S.MayRead, S.Oldest;
    RingInvGives(c, s);
    RoomIsDistance(c, s);
    S.OldestIs(s.snd, c.blocks, c.w);
  }

  lemma StillStopped(c: Config, s: System)
    requires Quiet(c, s) && s.base < s.Next()
    ensures InRange(c, s)
    ensures var s' := Step(c, Step(c, s, Resend), DeliverData); s'.snd == s.snd && s'.phase == Reading && s'.acks != []
  {
    hide Slot, S.RingInv, R.Pending, R.Valid, R.Receive, S.Acknowledge, S.Oldest, S.LatestIn, Inv;
    InvInRange(c, s);
    ResendQuiet(c, s);
    FlowStep(c, s, Resend);
    DeliverQuiet(c, Step(c, s, Resend));
  }

  /** Everything under way may be lost. */
  lemma {:induction false} LoseEverything(c: Config, past: seq<Turn>) returns (turns: seq<Turn>)
    requires c.Valid() && Defined(c, past)
    ensures past <= turns && Defined(c, turns)
    ensures TurnRun(c, turns) == TurnRun(c, past).(data := [], acks := [])
    decreases |TurnRun(c, past).data| + |TurnRun(c, past).acks|
  {
    hide TurnRun, Defined, S.Oldest, S.MayRead;
    var s := TurnRun(c, past);
    if s.data == [] && s.acks == [] {
      turns := past;
    } else {
      var t := if s.data != [] then DropData(0) else DropAck(0);
      OtherTurns(c, past, t);
      turns := LoseEverything(c, past + [t]);
    }
  }

  // ---------------------------------------------------------------------------
  // Files that can always be completed

  predicate Finishable(c: Config) {
    |c.blocks| <= 2 || (c.w == 1 && |c.blocks| <= 256) || (c.w == 2 && |c.blocks| <= 255)
  }

  lemma InFlow(c: Config, turns: seq<Turn>)
    requires c.Valid() && |c.blocks| <= 256
    ensures Inv(c, TurnRun(c, turns)) && FlowControlled(TurnRun(c, turns))
  {
    hide TurnRun, Inv, FlowControlled;
    TurnsAreSteps(c, turns);
    SmallFileInRoom(c, Actions(c, turns));
    FlowAlways(c, Actions(c, turns));
  }

  /** When the sender of such a file can read the end, at most one block is not
      acknowledged. */
  lemma OneLeft(c: Config, s: System)
    requires Quiet(c, s) && Finishable(c) && S.MayRead(s.snd) && s.Next() == |c.blocks| && s.Written() < |c.blocks|
    ensures s.base == |c.blocks| - 1
  {
    hide Slot, S.RingInv, R.Pending, R.Valid, S.MayRead;
    RingInvGives(c, s);
    RoomIsDistance(c, s);
  }

  /** It is resent in the turn that reads the end, and may arrive. */
  lemma LastChance(c: Config, past: seq<Turn>) returns (turns: seq<Turn>)
    requires c.Valid() && Finishable(c) && Defined(c, past) && Quiet(c, TurnRun(c, past))
    requires var s := TurnRun(c, past); S.MayRead(s.snd) && s.Next() == |c.blocks| && s.Written() < |c.blocks|
    ensures past <= turns && Defined(c, turns) && TurnRun(c, turns).rcv.out == c.blocks
  {
    hide TurnRun, Defined, Step, S.MayRead, S.Oldest, Quiet, Inv;
    var s := TurnRun(c, past);
    OneLeft(c, s);
    QuietGives(c, s);
    ResendQuiet(c, s);
    assert S.Oldest(s.snd).Some? by { CanResend(c, s); }
    SenderTurns(c, past, false);
    OtherTurns(c, past + [SenderTurn(false)], ReceiverTurn);
    turns := past + [SenderTurn(false)] + [ReceiverTurn];
    LastArrives(c, s);
  }

  lemma CanResend(c: Config, s: System)
    requires InRange(c, s) && Enabled(c, s, Resend)
    ensures S.Oldest(s.snd).Some?
  {
  }

  lemma LastArrives(c: Config, s: System)
    requires Quiet(c, s) && S.MayRead(s.snd) && s.Next() == |c.blocks| && s.base == |c.blocks| - 1
    ensures InRange(c, s)
    ensures Step(c, Step(c, Step(c, Step(c, s, ReadEnd), Resend), LeaveLoop), DeliverData).rcv.out == c.blocks
  {
    hide Slot, S.RingInv, R.Pending, R.Valid, R.Receive, S.Oldest, S.LatestIn, S.MayRead, Deliver, S.InRange, R.Indexed;
    var s1, t := Step(c, s, Resend), Step(c, Step(c, Step(c, s, ReadEnd), Resend), LeaveLoop);
    ResendQuiet(c, s);
    FlowStep(c, s, Resend);
    assert t == s1.(phase := Ending);
    DeliverQuiet(c, s1);
    FlowStep(c, s1, DeliverData);
    DeliverPhase(c, s1);
    assert Step(c, s1, DeliverData).Written() == |c.blocks|;
  }

  lemma DeliverPhase(c: Config, s: System)
    requires InRange(c, s) && Enabled(c, s, DeliverData)
    ensures Step(c, s.(phase := Ending), DeliverData).rcv == Step(c, s, DeliverData).rcv
  {
  }

  lemma QuietGives(c: Config, s: System)
    requires Quiet(c, s)
    ensures InRange(c, s) && s.phase == Reading && s.base <= s.Written() <= s.Next() <= |c.blocks|
    ensures s.Written() == |c.blocks| ==> s.rcv.out == c.blocks
  {
  }

  /** A new block is sent, and lost. */
  lemma SendLost(c: Config, past: seq<Turn>) returns (turns: seq<Turn>)
    requires c.Valid() && |c.blocks| <= 256 && Defined(c, past) && Quiet(c, TurnRun(c, past))
    requires S.MayRead(TurnRun(c, past).snd) && TurnRun(c, past).Next() < |c.blocks|
    ensures past <= turns && Defined(c, turns)
    ensures var s, s' := TurnRun(c, past), TurnRun(c, turns);
            Quiet(c, s') && s'.base == s.base && s'.Next() == s.Next() + 1
  {
    hide TurnRun, Defined, S.MayRead, S.Oldest, Inv, FlowControlled, Slot;
    SenderTurns(c, past, false);
    OtherTurns(c, past + [SenderTurn(false)], DropData(0));
    turns := past + [SenderTurn(false)] + [DropData(0)];
    InFlow(c, turns);
  }

  lemma {:induction false} Complete(c: Config, past: seq<Turn>) returns (turns: seq<Turn>)
    requires c.Valid() && Finishable(c) && Defined(c, past) && Quiet(c, TurnRun(c, past))
    ensures past <= turns && Defined(c, turns) && TurnRun(c, turns).rcv.out == c.blocks
    decreases |c.blocks| - TurnRun(c, past).base, |c.blocks| - TurnRun(c, past).Next()
  {
    hide TurnRun, Defined, S.MayRead, Quiet, Finishable;
    var s := TurnRun(c, past);
    QuietGives(c, s);
    if s.Written() == |c.blocks| {
      turns := past;
    } else if S.MayRead(s.snd) && s.Next() == |c.blocks| {
      turns := LastChance(c, past);
    } else {
      var next;
      if S.MayRead(s.snd) {
        assert |c.blocks| <= 256 by { FinishableIsSmall(c); }
        next := SendLost(c, past);
      } else {
        next := RecoverTurns(c, past);
      }
      QuietGives(c, TurnRun(c, next));
      turns := Complete(c, next);
    }
  }

  lemma FinishableIsSmall(c: Config)
    requires Finishable(c)
    ensures |c.blocks| <= 256
  {
  }

  predicate InLoops(s: System) {
    s.phase == Reading && !s.rcv.ended
  }

  /** Whatever such a run has lost, it can be completed. */
  lemma CanFinish(c: Config, past: seq<Turn>) returns (turns: seq<Turn>)
    requires c.Valid() && Finishable(c) && Defined(c, past) && InLoops(TurnRun(c, past))
    ensures past <= turns && Defined(c, turns) && TurnRun(c, turns).rcv.out == c.blocks
  {
    hide TurnRun, Defined, Inv, FlowControlled;
    var quiet := LoseEverything(c, past);
    InFlow(c, quiet);
    turns := Complete(c, quiet);
  }
}
