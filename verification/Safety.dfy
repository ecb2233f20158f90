/** Safety over whole runs: what the receiver writes is always the beginning of
    the file, and the 8-bit numbers never mislead either side. */
module Safety {
  import opened Common
  import opened Ring
  import opened Protocol
  import S = SenderSpec
  import R = ReceiverSpec

  /** Every new block of the run was sent while there was room in the window. */
  predicate SendsInRoom(c: Config, run: seq<Action>)
    requires c.Valid()
  {
    run == [] ||
    var past, a := run[..|run| - 1], run[|run| - 1];
    SendsInRoom(c, past) && (a == SendBlock && Enabled(c, Run(c, past), a) ==> S.HasRoom(Run(c, past).snd))
  }

  /** Every new block of the run was sent with fewer than 256 others
      unacknowledged. */
  predicate SendsUnambiguous(c: Config, run: seq<Action>)
    requires c.Valid()
  {
    run == [] ||
    var past, a := run[..|run| - 1], run[|run| - 1];
    && SendsUnambiguous(c, past)
    && (a == SendBlock && Enabled(c, Run(c, past), a) ==> Run(c, past).Next() < Run(c, past).base + 256)
  }

  lemma AppendInRoom(c: Config, run: seq<Action>, a: Action)
    requires c.Valid() && SendsInRoom(c, run)
    requires a == SendBlock && Enabled(c, Run(c, run), a) ==> S.HasRoom(Run(c, run).snd)
    ensures SendsInRoom(c, run + [a])
  {
    assert (run + [a])[..|run|] == run;
  }

  lemma InvStep(c: Config, s: System, a: Action)
    requires Inv(c, s) && (a == SendBlock && Enabled(c, s, a) ==> s.Next() < s.base + 256)
    ensures Inv(c, Step(c, s, a))
  {
    hide Inv, Slot, Deliver, TakeAck;
    assert InRange(c, s) by { InvInRange(c, s); }
    if Enabled(c, s, a) {
      match a
      case SendBlock => InvSendBlock(c, s);
      case Resend => InvResend(c, s);
      case LoseData(_) => InvLose(c, s, a);
      case LoseAck(_) => InvLose(c, s, a);
      case DeliverData => InvDeliverData(c, s);
      case DeliverAck => InvDeliverAck(c, s);
      case ReadEnd => InvPhase(c, s, a);
      case LeaveLoop => InvPhase(c, s, a);
      case SendEnd => InvPhase(c, s, a);
    }
  }

  lemma InvInRange(c: Config, s: System)
    requires Inv(c, s)
    ensures InRange(c, s)
  {
  }

  lemma InvPhase(c: Config, s: System, a: Action)
    requires Inv(c, s) && Enabled(c, s, a) && (a.ReadEnd? || a.LeaveLoop? || a.SendEnd?)
    ensures Inv(c, Step(c, s, a))
  {
    hide Slot, S.RingInv, R.Pending, R.Valid;
  }

  /** The invariant holds after every run that keeps the numbers unambiguous, for
      a file of any length. */
  lemma {:induction false} InvAlways(c: Config, run: seq<Action>)
    requires c.Valid() && SendsUnambiguous(c, run)
    ensures Inv(c, Run(c, run))
  {
    if run == [] {
      InvInitially(c);
    } else {
      InvAlways(c, run[..|run| - 1]);
      InvStep(c, Run(c, run[..|run| - 1]), run[|run| - 1]);
    }
  }

  /** The receiver has written the first blocks of the file, in order, without a
      gap and without a repeat. */
  predicate WrotePrefix(c: Config, s: System) {
    s.Written() <= |c.blocks| && s.rcv.out == c.blocks[..s.Written()]
  }

  lemma PrefixAlways(c: Config, run: seq<Action>)
    requires c.Valid() && SendsUnambiguous(c, run)
    ensures WrotePrefix(c, Run(c, run))
  {
    InvAlways(c, run);
  }

  // ---------------------------------------------------------------------------
  // Flow control

  predicate FlowControlled(s: System) {
    s.base <= s.Written() <= s.Next() <= s.base + s.snd.window
  }

  lemma RoomIsDistance(c: Config, s: System)
    requires Inv(c, s) && s.Next() < s.base + 256
    ensures S.HasRoom(s.snd) <==> s.Next() < s.base + s.snd.window
    ensures S.MayRead(s.snd) <==> s.Next() < s.base + s.snd.window || s.base % 256 > s.Next() % 256
  {
    hide Slot, R.Pending, R.Valid, S.RingInv, ReceiverInv, DataInv, AckInv, Distance;
    RingInvGives(c, s);
    BaseBehind(c, s);
    DistanceToAck(s.base, s.Next());
    PlainDifference(s.base, s.Next());
  }

  lemma BaseBehind(c: Config, s: System)
    requires Inv(c, s)
    ensures s.base <= s.Written() <= s.Next()
  {
  }

  lemma PlainDifference(base: nat, next: nat)
    requires base <= next < base + 256
    ensures next % 256 - base % 256 == if base % 256 <= next % 256 then next - base else next - base - 256
  {
  }

  /** In a flow-controlled state the next send keeps flow control if and only if
      there is room, that is, if and only if it overwrites no packet that is not
      acknowledged. */
  lemma SendKeepsFlowIff(c: Config, s: System)
    requires Inv(c, s) && FlowControlled(s) && Enabled(c, s, SendBlock)
    ensures FlowControlled(Step(c, s, SendBlock)) <==> S.HasRoom(s.snd)
    ensures S.HasRoom(s.snd) <==>
            forall a :: s.base <= a < s.Next() ==> Slot(a, s.snd.window) != Slot(s.Next(), s.snd.window)
  {
    hide Slot, R.Pending, R.Valid, S.RingInv;
    RingInvGives(c, s);
    RoomIsDistance(c, s);
    SendGives(s.snd, c.blocks[s.snd.seqInd]);
    forall a | s.base <= a < s.Next() && S.HasRoom(s.snd)
      ensures Slot(a, s.snd.window) != Slot(s.Next(), s.snd.window)
    {
      if Slot(a, s.snd.window) == Slot(s.Next(), s.snd.window) {
        SlotInjective(a, s.Next(), s.snd.window);
      }
    }
    SlotWraps(s.base, s.snd.window);
  }

  lemma FlowStep(c: Config, s: System, a: Action)
    requires Inv(c, s) && FlowControlled(s) && (a == SendBlock && Enabled(c, s, a) ==> S.HasRoom(s.snd))
    ensures Inv(c, Step(c, s, a)) && FlowControlled(Step(c, s, a))
  {
    hide Slot, S.RingInv, R.Pending, R.Valid;
    if a == SendBlock && Enabled(c, s, a) {
      SendKeepsFlowIff(c, s);
    }
    InvStep(c, s, a);
    RingInvGives(c, s);
    if a == DeliverAck && Enabled(c, s, a) {
      assert AckOk(c, s, s.acks[0]);
      SlideMovesBase(c, s, s.acks[0]);
    }
  }

  /** A sender that reads on only when there is room never runs ahead of the
      window, in any run on a file of any length. */
  lemma {:induction false} FlowAlways(c: Config, run: seq<Action>)
    requires c.Valid() && SendsInRoom(c, run)
    ensures Inv(c, Run(c, run)) && FlowControlled(Run(c, run))
  {
    if run == [] {
      InvInitially(c);
    } else {
      FlowAlways(c, run[..|run| - 1]);
      FlowStep(c, Run(c, run[..|run| - 1]), run[|run| - 1]);
    }
  }

  /** Every block under way is less than a window away from the receiver's next
      one, so its number alone decides which block it is. */
  lemma NumberDecides(c: Config, run: seq<Action>, i: nat, b: nat)
    requires c.Valid() && SendsInRoom(c, run)
    requires i < |Run(c, run).data| && Run(c, run).data[i].Data?
    ensures var s := Run(c, run);
            && s.Written() <= s.data[i].origin + c.w && s.data[i].origin < s.Written() + c.w
            && (s.Written() <= b + c.w && b < s.Written() + c.w && b % 256 == s.data[i].num ==> b == s.data[i].origin)
  {
    FlowAlways(c, run);
    var s := Run(c, run);
    hide Run, Inv, SendsInRoom;
    DataFacts(c, s, i);
    if s.Written() <= b + c.w && b < s.Written() + c.w && b % 256 == s.data[i].num {
      SameNumber(b, s.data[i].origin);
    }
  }

  lemma SameNumber(a: nat, b: nat)
    requires a % 256 == b % 256 && a < b + 256 && b < a + 256
    ensures a == b
  {
  }

  lemma DataFacts(c: Config, s: System, i: nat)
    requires Inv(c, s) && i < |s.data| && s.data[i].Data?
    ensures s.data[i].origin < s.Next() && s.data[i].num == s.data[i].origin % 256
    ensures s.Written() <= s.data[i].origin + c.w && s.snd.window <= c.w
  {
    DataInvAt(c, s, i);
  }

  /** The acknowledgements under way never fall back, and each one lies between
      what the sender knows and what the receiver wrote. */
  lemma AcksInOrder(c: Config, run: seq<Action>, i: nat, j: nat)
    requires c.Valid() && SendsInRoom(c, run) && i <= j < |Run(c, run).acks|
    ensures var s := Run(c, run);
            && s.base <= s.acks[i].origin <= s.acks[j].origin <= s.Written()
            && s.acks[i].num == s.acks[i].origin % 256
            && s.acks[i].origin == s.base + Distance(s.snd.smallSeq, s.acks[i].num)
  {
    FlowAlways(c, run);
    var s := Run(c, run);
    hide Run, S.RingInv, R.Pending, R.Valid, Slot;
    assert AckOk(c, s, s.acks[i]) && AckOk(c, s, s.acks[j]);
    RingInvGives(c, s);
    DistanceToAck(s.base, s.acks[i].origin);
  }

  /** The timer resends exactly the oldest unacknowledged block. */
  lemma TimerResendsBase(c: Config, run: seq<Action>)
    requires c.Valid() && SendsInRoom(c, run) && Run(c, run).base < Run(c, run).Next()
    ensures var s := Run(c, run);
            && s.base < |c.blocks|
            && S.Oldest(s.snd).Some? && S.Oldest(s.snd).value.block == c.blocks[s.base]
            && S.Oldest(s.snd).value.num == s.base % 256
  {
    FlowAlways(c, run);
    S.OldestIs(Run(c, run).snd, c.blocks, c.w);
  }
}
