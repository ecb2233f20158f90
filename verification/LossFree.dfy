/** If no data packet is lost, the transfer is complete when the receiver stops,
    whatever happens to the acknowledgements: for the sender as it is, and for a
    file of any length. */
module LossFree {
  import opened Common
  import opened Ring
  import opened Protocol
  import opened Safety
  import S = SenderSpec
  import R = ReceiverSpec

  predicate Lossless(run: seq<Action>) {
    forall i :: 0 <= i < |run| ==> !run[i].LoseData?
  }

  /** The number of blocks written once `m` has arrived after `n` of them. */
  function After(n: nat, m: Message): nat {
    if m.Data? && m.origin == n then n + 1 else n
  }

  function AfterAll(n: nat, data: seq<Message>): nat
    decreases |data|
  {
    if data == [] then n else AfterAll(After(n, data[0]), data[1..])
  }

  /** `m` can arrive after `n` blocks were written: it is the next block, or a
      repeat from the last window, or the end after the last block. */
  predicate Timely(c: Config, n: nat, m: Message) {
    match m
    case Data(num, block, a) => a <= n <= a + c.w && a < |c.blocks| && num == a % 256 && block == c.blocks[a]
    case End(_) => n == |c.blocks|
  }

  predicate AllTimely(c: Config, n: nat, data: seq<Message>)
    decreases |data|
  {
    data == [] || (Timely(c, n, data[0]) && AllTimely(c, After(n, data[0]), data[1..]))
  }

  lemma {:induction false} TimelyAppend(c: Config, n: nat, data: seq<Message>, m: Message)
    requires AllTimely(c, n, data) && Timely(c, AfterAll(n, data), m)
    ensures AllTimely(c, n, data + [m]) && AfterAll(n, data + [m]) == After(AfterAll(n, data), m)
    decreases |data|
  {
    if data == [] {
      assert [] + [m] == [m];
    } else {
      assert (data + [m])[1..] == data[1..] + [m];
      TimelyAppend(c, After(n, data[0]), data[1..], m);
    }
  }

  /** The receiver holds back nothing, and once everything under way has arrived
      it will have written all that was sent. */
  predicate LosslessInv(c: Config, s: System) {
    && InRange(c, s)
    && S.RingInv(s.snd, c.blocks, c.w)
    && R.Valid(s.rcv) && |s.rcv.ring| == c.w && s.rcv.ring[s.rcv.index].None? && R.Pending(s.rcv) == map[]
    && s.Written() <= |c.blocks| && s.rcv.out == c.blocks[..s.Written()]
    && AllTimely(c, s.Written(), s.data) && AfterAll(s.Written(), s.data) == s.Next()
    && (s.acks != [] ==> s.snd.started) && (forall i :: 0 <= i < |s.acks| ==> s.acks[i].window == c.w)
    && (s.phase != Reading ==> s.Next() == |c.blocks|)
    && (s.rcv.ended ==> s.Written() == |c.blocks|)
  }

  lemma {:induction false} AfterAllGrows(n: nat, data: seq<Message>)
    ensures n <= AfterAll(n, data)
    decreases |data|
  {
    if data != [] {
      AfterAllGrows(After(n, data[0]), data[1..]);
    }
  }

  lemma Initially(c: Config)
    requires c.Valid()
    ensures LosslessInv(c, Initial(c))
  {
    S.RingInvInitially(c.blocks, c.w);
    SlotSmall(0, c.w);
  }

  lemma StepSend(c: Config, s: System)
    requires LosslessInv(c, s) && Enabled(c, s, SendBlock)
    ensures LosslessInv(c, Step(c, s, SendBlock))
  {
    hide Slot, S.RingInv, R.Pending, R.Valid, S.Send;
    RingInvGives(c, s);
    S.RingInvSend(s.snd, c.blocks, c.w);
    SendGives(s.snd, c.blocks[s.snd.seqInd]);
    RingInvGives(c, Step(c, s, SendBlock));
    TimelyAppend(c, s.Written(), s.data, Data(s.snd.seqExp, c.blocks[s.snd.seqInd], s.Next()));
  }

  lemma StepResend(c: Config, s: System)
    requires LosslessInv(c, s) && Enabled(c, s, Resend)
    ensures LosslessInv(c, Step(c, s, Resend))
  {
    hide Slot, S.RingInv, R.Pending, R.Valid, S.Oldest, S.LatestIn;
    RingInvGives(c, s);
    S.OldestIs(s.snd, c.blocks, c.w);
    var s' := Step(c, s, Resend);
    TimelyAppend(c, s.Written(), s.data, s'.data[|s.data|]);
  }

  lemma StepSendEnd(c: Config, s: System)
    requires LosslessInv(c, s) && Enabled(c, s, SendEnd)
    ensures LosslessInv(c, Step(c, s, SendEnd))
  {
    hide Slot, S.RingInv, R.Pending, R.Valid;
    TimelyAppend(c, s.Written(), s.data, End(s.snd.seqExp));
  }

  /** The next block is written at once, a repeat is ignored. */
  lemma ReceiveInOrder(c: Config, r: R.Receiver, m: Message)
    requires c.Valid() && R.Valid(r) && |r.ring| == c.w && r.ring[r.index].None? && R.Pending(r) == map[]
    requires m.Data? && Timely(c, |r.out|, m)
    ensures var r' := R.Receive(r, m.num, m.block);
            && R.Valid(r') && |r'.ring| == c.w && r'.ended == r.ended && r'.ring[r'.index].None?
            && R.Pending(r') == map[]
            && r'.out == r.out + if m.origin == |r.out| then [m.block] else []
  {
    hide Slot, R.Receive, R.Pending;
    ReceiveAdds(r, m.origin, m.block);
    var r' := R.Receive(r, m.num, m.block);
    if m.origin == |r.out| {
      NextIsWritten(r, m.block);
      assert r'.out == r'.out[..|r.out|] + [r'.out[|r.out|]];
    }
    NothingHeld(r', m.origin);
  }

  lemma NothingHeld(r: R.Receiver, a: nat)
    requires |r.ring| > 0 && a < |r.out| && forall b :: b in R.Pending(r) ==> b == a
    ensures R.Pending(r) == map[]
  {
  }

  lemma StepDeliver(c: Config, s: System)
    requires LosslessInv(c, s) && Enabled(c, s, DeliverData)
    ensures LosslessInv(c, Step(c, s, DeliverData))
  {
    hide Slot, S.RingInv, R.Pending, R.Valid, R.Receive;
    var m := s.data[0];
    RingInvGives(c, s);
    AfterAllGrows(After(s.Written(), m), s.data[1..]);
    if m.Data? {
      ReceiveInOrder(c, s.rcv, m);
    } else {
      EndPending(s.rcv);
    }
  }

  lemma StepAck(c: Config, s: System)
    requires LosslessInv(c, s) && Enabled(c, s, DeliverAck)
    ensures LosslessInv(c, Step(c, s, DeliverAck))
  {
    hide Slot, S.RingInv, R.Pending, R.Valid;
    RingInvGives(c, s);
    S.RingInvAcknowledge(s.snd, c.blocks, c.w, s.acks[0].num);
    RingInvGives(c, Step(c, s, DeliverAck));
  }

  lemma StepLoseAck(c: Config, s: System, a: Action)
    requires LosslessInv(c, s) && Enabled(c, s, a) && a.LoseAck?
    ensures LosslessInv(c, Step(c, s, a))
  {
    hide Slot, S.RingInv, R.Pending, R.Valid;
  }

  lemma StepPhase(c: Config, s: System, a: Action)
    requires LosslessInv(c, s) && Enabled(c, s, a) && (a.ReadEnd? || a.LeaveLoop?)
    ensures LosslessInv(c, Step(c, s, a))
  {
    hide Slot, S.RingInv, R.Pending, R.Valid;
  }

  lemma LosslessStep(c: Config, s: System, a: Action)
    requires LosslessInv(c, s) && !a.LoseData?
    ensures LosslessInv(c, Step(c, s, a))
  {
    assert InRange(c, s);
    hide LosslessInv, Slot, Deliver, TakeAck;
    if Enabled(c, s, a) {
      match a
      case SendBlock => StepSend(c, s);
      case Resend => StepResend(c, s);
      case SendEnd => StepSendEnd(c, s);
      case DeliverData => StepDeliver(c, s);
      case DeliverAck => StepAck(c, s);
      case LoseAck(_) => StepLoseAck(c, s, a);
      case ReadEnd => StepPhase(c, s, a);
      case LeaveLoop => StepPhase(c, s, a);
    }
  }

  lemma {:induction false} LosslessAlways(c: Config, run: seq<Action>)
    requires c.Valid() && Lossless(run)
    ensures LosslessInv(c, Run(c, run))
  {
    hide LosslessInv, Step;
    if run == [] {
      Initially(c);
    } else {
      LosslessAlways(c, run[..|run| - 1]);
      LosslessStep(c, Run(c, run[..|run| - 1]), run[|run| - 1]);
    }
  }

  /** When a receiver to which nothing was lost has met the zero-length packet, it
      has written the whole file. */
  lemma CompleteAtEnd(c: Config, run: seq<Action>)
    requires c.Valid() && Lossless(run)
    ensures WrotePrefix(c, Run(c, run))
    ensures Run(c, run).rcv.ended ==> Run(c, run).rcv.out == c.blocks
  {
    LosslessAlways(c, run);
  }
}
