/** Acknowledgements in any order and any number of times: the exact limit on the
    length of the file stays what it is. */
module AckDisorder {
  import opened Common
  import opened Ring
  import opened Protocol
  import opened Safety
  import opened Turns
  import opened Network
  import FileSize
  import S = SenderSpec
  import R = ReceiverSpec

  /** What every acknowledgement ever sent says. */
  predicate AcksTrue(w: nat, written: nat, q: seq<Ack>) {
    forall i :: 0 <= i < |q| ==> AckTrue(w, written, q[i])
  }

  predicate AckTrue(w: nat, written: nat, k: Ack) {
    k.num == k.origin % 256 && k.window == w && 1 <= k.origin <= written
  }

  /** The sender knows the number of some block already written, and before the
      first wrap it is not more than a window ahead of the receiver. */
  predicate Loose(c: Config, s: System) {
    && Core(c, s) && AcksTrue(c.w, s.Written(), s.acks)
    && s.snd.smallSeq <= s.Written() && (s.Written() + c.w < 256 ==> s.Next() <= s.Written() + c.w)
    && (s.Written() == 0 ==> s.snd.window == 1)
  }

  lemma MoreWritten(w: nat, written: nat, more: nat, q: seq<Ack>)
    requires AcksTrue(w, written, q) && written <= more
    ensures AcksTrue(w, more, q)
  {
  }

  lemma LooseInitially(c: Config)
    requires c.Valid()
    ensures Loose(c, Initial(c))
  {
    hide Inv, Core;
    InvInitially(c);
    InvIsCore(c, Initial(c));
  }

  lemma LooseSend(c: Config, s: System)
    requires Loose(c, s) && Enabled(c, s, SendBlock) && |c.blocks| <= 512 - c.w
    ensures Loose(c, Step(c, s, SendBlock)) && Step(c, s, SendBlock).Written() == s.Written()
  {
    hide Slot, S.RingInv, ReceiverInv, DataInv, AcksTrue, S.Send;
    RingInvGives(c, s);
    CoreGives(c, s);
    SendGives(s.snd, c.blocks[s.snd.seqInd]);
    CoreSendBlock(c, s);
  }

  lemma LooseOther(c: Config, s: System, a: Action)
    requires Loose(c, s) && Enabled(c, s, a) && (a.Resend? || a.LoseData? || a.ReadEnd? || a.LeaveLoop? || a.SendEnd?)
    ensures Loose(c, Step(c, s, a)) && Step(c, s, a).Written() == s.Written()
  {
    hide Slot, S.RingInv, S.Oldest, S.LatestIn, AcksTrue;
    if a.Resend? {
      CoreResend(c, s);
    } else if a.LoseData? {
      CoreLose(c, s, a);
    } else {
      CorePhase(c, s, a);
    }
  }

  lemma CorePhase(c: Config, s: System, a: Action)
    requires Core(c, s) && Enabled(c, s, a) && (a.ReadEnd? || a.LeaveLoop? || a.SendEnd?)
    ensures Core(c, Step(c, s, a))
  {
    hide Slot, S.RingInv, R.Pending, R.Valid;
  }

  lemma LooseLoseAck(c: Config, s: System, a: Action)
    requires Loose(c, s) && Enabled(c, s, a) && a.LoseAck?
    ensures Loose(c, Step(c, s, a)) && Step(c, s, a).Written() == s.Written()
  {
    hide Slot, S.RingInv, Core;
    assert InRange(c, s) by { CoreGives(c, s); }
    CoreLose(c, s, a);
  }

  lemma LooseDeliver(c: Config, s: System)
    requires Loose(c, s) && Enabled(c, s, DeliverData)
    ensures Loose(c, Step(c, s, DeliverData)) && s.Written() <= Step(c, s, DeliverData).Written()
  {
    hide Slot, S.RingInv, ReceiverInv, DataInv, R.Receive;
    CoreDeliverData(c, s);
    var s' := Step(c, s, DeliverData);
    MoreWritten(c.w, s.Written(), s'.Written(), s.acks);
    if s.data[0].Data? {
      FirstAckCounts(c, s);
      AnswerIsTrue(c, s);
    }
  }

  lemma AnswerIsTrue(c: Config, s: System)
    requires Core(c, s) && Enabled(c, s, DeliverData) && s.data[0].Data?
    requires Core(c, Step(c, s, DeliverData)) && Step(c, s, DeliverData).Written() >= 1
    ensures var s' := Step(c, s, DeliverData);
            |s'.acks| == |s.acks| + 1 && s'.acks[..|s.acks|] == s.acks && AckTrue(c.w, s'.Written(), s'.acks[|s.acks|])
  {
    hide Slot, S.RingInv, DataInv, R.Receive, R.Pending;
  }

  lemma LooseTake(c: Config, s: System)
    requires Loose(c, s) && Enabled(c, s, DeliverAck)
    ensures Loose(c, Step(c, s, DeliverAck)) && Step(c, s, DeliverAck).Written() == s.Written()
  {
    hide Slot, S.RingInv, Core, S.Acknowledge;
    CoreGives(c, s);
    assert AckTrue(c.w, s.Written(), s.acks[0]);
    var k, t := s.acks[0], s.(acks := s.acks[1..]);
    CoreAcks(c, s, s.acks[1..]);
    CoreTakeAck(c, t, k);
    assert k.num <= k.origin;
    assert Step(c, s, DeliverAck) == TakeAck(t, k);
  }

  lemma LooseStep(c: Config, s: System, a: Action)
    requires Loose(c, s) && |c.blocks| <= 512 - c.w
    ensures InRange(c, s) && Loose(c, Step(c, s, a)) && s.Written() <= Step(c, s, a).Written()
  {
    assert InRange(c, s);
    hide Loose, Slot, Deliver, TakeAck, S.Oldest, S.MayRead;
    if Enabled(c, s, a) {
      match a
      case SendBlock => LooseSend(c, s);
      case LoseAck(_) => LooseLoseAck(c, s, a);
      case DeliverData => LooseDeliver(c, s);
      case DeliverAck => LooseTake(c, s);
      case _ => LooseOther(c, s, a);
    }
  }

  lemma {:induction false} LoosePerform(c: Config, s: System, steps: seq<Action>)
    requires Loose(c, s) && |c.blocks| <= 512 - c.w
    ensures InRange(c, s) && Loose(c, Perform(c, s, steps)) && s.Written() <= Perform(c, s, steps).Written()
    decreases |steps|
  {
    assert InRange(c, s);
    hide Loose, Step;
    if steps != [] {
      var n := |steps| - 1;
      LoosePerform(c, s, steps[..n]);
      LooseStep(c, Perform(c, s, steps[..n]), steps[n]);
    }
  }

  // ---------------------------------------------------------------------------
  // Runs in which only acknowledgements are repeated

  /** Data packets keep their order and arrive at most once. */
  predicate DataInOrder(events: seq<Event>) {
    forall i :: 0 <= i < |events| ==> !events[i].RepeatData?
  }

  predicate NetLoose(c: Config, n: Net) {
    Loose(c, n.sys) && AcksTrue(c.w, n.sys.Written(), n.acksSent)
  }

  lemma StillTrue(w: nat, written: nat, sent: seq<Ack>, before: seq<Ack>, after: seq<Ack>)
    requires AcksTrue(w, written, sent) && AcksTrue(w, written, after)
    ensures AcksTrue(w, written, sent + Appended(before, after)) && AcksTrue(w, written, sent + [])
  {
    hide AckTrue;
    var added := Appended(before, after);
    forall i | 0 <= i < |sent + added|
      ensures AckTrue(w, written, (sent + added)[i])
    {
      if i < |sent| {
        assert (sent + added)[i] == sent[i];
      } else {
        assert (sent + added)[i] == added[i - |sent|] == after[|before| + (i - |sent|)];
      }
    }
    assert sent + [] == sent;
  }

  lemma LooseTurn(c: Config, n: Net, t: Turn)
    requires NetInRange(c, n) && NetLoose(c, n) && |c.blocks| <= 512 - c.w
    ensures NetLoose(c, Happen(c, n, Loop(t)))
  {
    LoosePerform(c, n.sys, Steps(c, n.sys, t));
    var s' := After(c, n.sys, t);
    assert AcksTrue(c.w, s'.Written(), s'.acks);
    hide Loose, Perform, AcksTrue;
    MoreWritten(c.w, n.sys.Written(), s'.Written(), n.acksSent);
    StillTrue(c.w, s'.Written(), n.acksSent, n.sys.acks, s'.acks);
  }

  lemma LooseRepeat(c: Config, n: Net, i: nat)
    requires NetInRange(c, n) && NetLoose(c, n)
    ensures NetLoose(c, Happen(c, n, RepeatAck(i)))
  {
    hide Core, After;
    if i < |n.acksSent| {
      assert AckTrue(c.w, n.sys.Written(), n.acksSent[i]);
      CoreGives(c, n.sys);
      CoreAcks(c, n.sys, [n.acksSent[i]] + n.sys.acks);
    }
  }

  lemma {:induction false} LooseAlways(c: Config, events: seq<Event>)
    requires c.Valid() && |c.blocks| <= 512 - c.w && DataInOrder(events)
    ensures NetLoose(c, NetRun(c, events))
  {
    if events == [] {
      LooseInitially(c);
    } else {
      hide NetLoose, Happen;
      var past, e := events[..|events| - 1], events[|events| - 1];
      LooseAlways(c, past);
      if e.Loop? {
        LooseTurn(c, NetRun(c, past), e.turn);
      } else {
        LooseRepeat(c, NetRun(c, past), e.i);
      }
    }
  }

  lemma LooseIsPrefix(c: Config, s: System)
    requires Loose(c, s)
    ensures WrotePrefix(c, s)
  {
  }

  /** With acknowledgements that are lost, repeated and overtake one another, every
      file of `t` blocks is received as a prefix in every run of the loops exactly if
      `t` is at most 512 less the window: their order does not matter for that. */
  lemma AckOrderLimit(t: nat, w: nat)
    requires 1 <= w <= MAX_WINDOW_SIZE
    ensures (forall c: Config, events: seq<Event> ::
               c.Valid() && c.w == w && |c.blocks| == t && DataInOrder(events) && NetDefined(c, events) ==>
                 WrotePrefix(c, NetRun(c, events).sys))
            <==> t <= 512 - w
  {
    if t <= 512 - w {
      forall c: Config, events: seq<Event> | c.Valid() && c.w == w && |c.blocks| == t && DataInOrder(events)
        ensures WrotePrefix(c, NetRun(c, events).sys)
      {
        LooseAlways(c, events);
        LooseIsPrefix(c, NetRun(c, events).sys);
      }
    } else {
      var c := Config(FileSize.MarkedBlocks(t, 512 - w), w);
      var turns := FileSize.PrefixBreaks(c);
      NothingRepeated(c, turns);
      assert DataInOrder(Loops(turns)) && !WrotePrefix(c, NetRun(c, Loops(turns)).sys);
    }
  }
}
