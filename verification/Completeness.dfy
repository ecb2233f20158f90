/** When the end of the transfer proves that everything arrived. The sender
    leaves its loop at the end of the file without waiting for acknowledgements,
    and the receiver believes the zero-length packet. */
module Completeness {
  import opened Ring
  import opened Protocol
  import opened Safety
  import opened Turns
  import opened Leading
  import opened FileSize
  import opened UnsetPointer
  import S = SenderSpec
  import R = ReceiverSpec

  ghost predicate AlwaysComplete(c: Config)
    requires c.Valid()
  {
    forall turns: seq<Turn> ::
      Defined(c, turns) && TurnRun(c, turns).rcv.ended ==> TurnRun(c, turns).rcv.out == c.blocks
  }

  predicate StopAndWait(c: Config) {
    |c.blocks| <= 1 || (c.w == 1 && |c.blocks| <= 255)
  }

  /** The end was read only after the last block was acknowledged. */
  predicate EndInv(c: Config, s: System) {
    s.phase != Reading || s.rcv.ended || (exists i :: 0 <= i < |s.data| && s.data[i].End?) ==> s.Written() == |c.blocks|
  }

  lemma ReadEndIsLate(c: Config, s: System)
    requires Inv(c, s) && TestInv(c, s) && StopAndWait(c) && Enabled(c, s, ReadEnd)
    ensures s.Written() == |c.blocks|
  {
    hide Slot, S.RingInv, R.Pending, R.Valid, S.HasRoom, S.MayRead;
    RingInvGives(c, s);
    BaseBehind(c, s);
    RoomIsDistance(c, s);
  }

  lemma WrittenGrows(c: Config, s: System, a: Action)
    requires Inv(c, s)
    ensures InRange(c, s) && s.Written() <= Step(c, s, a).Written()
  {
    hide Slot, S.RingInv, R.Pending, R.Valid, R.Receive, TakeAck;
    if a == DeliverData && Enabled(c, s, a) && s.data[0].Data? {
      InvIsCore(c, s);
      DeliverReceiverInv(c, s);
    }
  }

  lemma EndStep(c: Config, s: System, a: Action)
    requires Inv(c, s) && TestInv(c, s) && StopAndWait(c) && EndInv(c, s)
    requires Inv(c, Step(c, s, a))
    ensures EndInv(c, Step(c, s, a))
  {
    hide Slot, S.RingInv, R.Pending, R.Valid, R.Receive, TestInv, StopAndWait, TakeAck, S.Send, S.Oldest, S.LatestIn;
    var s' := Step(c, s, a);
    WrittenGrows(c, s, a);
    RingInvGives(c, s');
    if a == ReadEnd && Enabled(c, s, a) {
      ReadEndIsLate(c, s);
    } else if s'.rcv.ended && !s.rcv.ended {
      EndArrived(c, s, a);
    } else if exists i :: 0 <= i < |s'.data| && s'.data[i].End? {
      EndUnderWay(c, s, a);
    }
  }

  lemma EndArrived(c: Config, s: System, a: Action)
    requires Inv(c, s) && EndInv(c, s) && Step(c, s, a).rcv.ended && !s.rcv.ended
    ensures s.Written() == |c.blocks|
  {
    hide Slot, S.RingInv, R.Pending, R.Valid, R.Receive, TakeAck, S.Send, S.Oldest, S.LatestIn;
    assert a == DeliverData && Enabled(c, s, a);
    if s.data[0].Data? {
      ReceiveAddsEnded(c, s);
    }
  }

  lemma ReceiveAddsEnded(c: Config, s: System)
    requires Inv(c, s) && Enabled(c, s, DeliverData) && s.data[0].Data?
    ensures !Step(c, s, DeliverData).rcv.ended
  {
    hide Slot, S.RingInv, R.Pending, R.Receive;
    assert Truthful(c, s, s.data[0]) && NotStale(c, s, s.data[0]);
    RingInvGives(c, s);
    ReceiveAdds(s.rcv, s.data[0].origin, s.data[0].block);
  }

  lemma EndUnderWay(c: Config, s: System, a: Action)
    requires Inv(c, s) && EndInv(c, s) && exists i :: 0 <= i < |Step(c, s, a).data| && Step(c, s, a).data[i].End?
    ensures s.Written() == |c.blocks|
  {
    hide Slot, S.RingInv, R.Pending, R.Valid, R.Receive, TakeAck, S.Send, S.Oldest, S.LatestIn;
    var s' := Step(c, s, a);
    var i :| 0 <= i < |s'.data| && s'.data[i].End?;
    if s.phase == Reading {
      assert exists j :: 0 <= j < |s.data| && s.data[j] == s'.data[i];
    }
  }

  lemma {:induction false} EndAlways(c: Config, run: seq<Action>)
    requires c.Valid() && StopAndWait(c)
    ensures EndInv(c, Run(c, run))
  {
    hide Inv, TestInv, EndInv, Step;
    TestAlways(c, run);
    if run == [] {
      InitiallyNoEnd(c);
    } else {
      var past := run[..|run| - 1];
      EndAlways(c, past);
      TestAlways(c, past);
      EndStep(c, Run(c, past), run[|run| - 1]);
    }
  }

  lemma InitiallyNoEnd(c: Config)
    ensures EndInv(c, Initial(c))
  {
  }

  /** All blocks were sent, the channels are empty, some block is missing, and the
      test lets the sender read the end. */
  predicate EndsEarly(c: Config, s: System) {
    && InRange(c, s) && s.phase == Reading && !s.rcv.ended && s.data == [] && s.acks == []
    && s.Next() == |c.blocks| && S.MayRead(s.snd) && s.Written() < |c.blocks| && S.Oldest(s.snd).Some?
  }

  /** The sender reads the end and resends the oldest block, which is lost; then
      the zero-length packet arrives. */
  lemma EndTooEarly(c: Config, past: seq<Turn>) returns (turns: seq<Turn>)
    requires c.Valid() && Defined(c, past) && EndsEarly(c, TurnRun(c, past))
    ensures Defined(c, turns) && TurnRun(c, turns).rcv.ended && TurnRun(c, turns).rcv.out != c.blocks
  {
    hide TurnRun, Defined, Step, S.MayRead, S.Oldest, InRange;
    var t1, t2 := past + [SenderTurn(false)], past + [SenderTurn(false)] + [DropData(0)];
    SenderTurns(c, past, false);
    OtherTurns(c, t1, DropData(0));
    OtherTurns(c, t2, EndTurn);
    OtherTurns(c, t2 + [EndTurn], ReceiverTurn);
    turns := t2 + [EndTurn] + [ReceiverTurn];
    LastTurnLost(c, TurnRun(c, past));
    EndArrives(c, TurnRun(c, t2));
  }

  lemma LastTurnLost(c: Config, s: System)
    requires EndsEarly(c, s)
    ensures var t := Step(c, Step(c, Step(c, Step(c, s, ReadEnd), Resend), LeaveLoop), LoseData(0));
            t.phase == Ending && t.rcv == s.rcv && t.data == []
  {
    hide S.MayRead, S.InRange, R.Indexed, TakeAck, S.Send, S.Oldest, Deliver;
  }

  lemma EndArrives(c: Config, s: System)
    requires InRange(c, s) && s.phase == Ending && !s.rcv.ended && s.data == []
    ensures var t := Step(c, Step(c, s, SendEnd), DeliverData); t.rcv.ended && t.rcv.out == s.rcv.out
  {
    hide S.MayRead, S.InRange, R.Indexed, TakeAck, S.Send, S.Oldest;
  }

  /** With a window of two the last block can be missing. */
  lemma LastBlockLost(c: Config) returns (turns: seq<Turn>)
    requires c.Valid() && c.w >= 2 && |c.blocks| >= 2
    ensures Defined(c, turns) && EndsEarly(c, TurnRun(c, turns))
  {
    turns := LeadAlone(c, |c.blocks| - 1);
    hide TurnRun, Defined;
    OneMissing(c, TurnRun(c, turns), |c.blocks| - 1);
  }

  lemma OneMissing(c: Config, s: System, n: nat)
    requires c.w >= 2 && Ahead(c, s, n) && s.data == [] && 1 <= n == |c.blocks| - 1
    ensures EndsEarly(c, s)
  {
    hide Slot, S.RingInv, R.Pending, R.Valid, S.HasRoom, S.MayRead, S.Oldest;
    RingInvGives(c, s);
    RoomIsDistance(c, s);
    S.OldestIs(s.snd, c.blocks, c.w);
  }

  /** With a window of one it takes the wrap: from number 255 on the sender never
      waits. */
  lemma WrapLosesAll(c: Config) returns (turns: seq<Turn>)
    requires c.Valid() && c.w == 1 && |c.blocks| >= 256
    ensures Defined(c, turns) && EndsEarly(c, TurnRun(c, turns))
  {
    var edge: seq<Turn>;
    edge, turns := FloodFromEdge(c, |c.blocks| - 256);
    hide TurnRun, Defined, Ahead, S.Oldest, S.MayRead, S.InRange, R.Indexed;
    AheadGives(c, TurnRun(c, edge), 255);
    FloodGoesOn(c, TurnRun(c, edge), TurnRun(c, turns), |c.blocks| - 256);
    OldestMissing(c, turns);
    InWindow(c, TurnRun(c, turns));
  }

  lemma InWindow(c: Config, s: System)
    requires InRange(c, s)
    ensures s.snd.smallInd < s.snd.window
  {
  }

  /** In every run of the loops a receiver that has stopped has the whole file,
      whatever is lost, exactly for files of at most one block, and with a window of
      one for files of at most 255; for these, in whatever order the steps come. */
  lemma CompletenessLimit(c: Config)
    requires c.Valid()
    ensures AlwaysComplete(c) <==> StopAndWait(c)
    ensures StopAndWait(c) ==> forall run: seq<Action> :: Run(c, run).rcv.ended ==> Run(c, run).rcv.out == c.blocks
  {
    if StopAndWait(c) {
      forall run: seq<Action> | Run(c, run).rcv.ended
        ensures Run(c, run).rcv.out == c.blocks
      {
        EndAlways(c, run);
        TestAlways(c, run);
        PrefixAlways(c, run);
      }
      forall turns: seq<Turn> | TurnRun(c, turns).rcv.ended
        ensures TurnRun(c, turns).rcv.out == c.blocks
      {
        TurnsAreSteps(c, turns);
      }
    } else if c.w >= 2 {
      var past := LastBlockLost(c);
      var turns := EndTooEarly(c, past);
    } else {
      var past := WrapLosesAll(c);
      var turns := EndTooEarly(c, past);
    }
  }
}
