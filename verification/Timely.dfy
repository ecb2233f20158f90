/** Files of any length over a network that repeats what was sent before: how late a
    datagram may arrive. */
module Timely {
  import opened Common
  import opened Ring
  import opened Protocol
  import opened Safety
  import opened Turns
  import opened Network
  import opened AckDisorder
  import S = SenderSpec
  import R = ReceiverSpec

  /** Blocks are sent only when there is room, a block arrives before the receiver is
      256 blocks past it, less a window, and no acknowledgement that was overtaken
      arrives. */
  predicate InTime(c: Config, s: System, a: Action)
    requires InRange(c, s)
  {
    Enabled(c, s, a) ==>
      match a
      case SendBlock => S.HasRoom(s.snd)
      case DeliverData => s.data[0].Data? ==> s.Written() + c.w <= s.data[0].origin + 256
      case DeliverAck => s.base <= s.acks[0].origin
      case _ => true
  }

  predicate StepsInTime(c: Config, s: System, steps: seq<Action>)
    requires InRange(c, s)
  {
    steps == [] ||
    var past, a := steps[..|steps| - 1], steps[|steps| - 1];
    StepsInTime(c, s, past) && InTime(c, Perform(c, s, past), a)
  }

  predicate RunsInTime(c: Config, events: seq<Event>)
    requires c.Valid()
  {
    events == [] ||
    var past, e := events[..|events| - 1], events[|events| - 1];
    && RunsInTime(c, past)
    && (e.Loop? ==> StepsInTime(c, NetRun(c, past).sys, Steps(c, NetRun(c, past).sys, e.turn)))
  }

  /** The two sides without what is under way. */
  function Bare(s: System): System {
    s.(data := [], acks := [])
  }

  predicate AllTruthful(c: Config, s: System, q: seq<Message>) {
    forall i :: 0 <= i < |q| ==> Truthful(c, s, q[i])
  }

  predicate TimelyInv(c: Config, s: System) {
    Inv(c, Bare(s)) && FlowControlled(s) && AllTruthful(c, s, s.data) && AcksTrue(c.w, s.Written(), s.acks)
  }

  lemma TimelyGives(c: Config, s: System)
    requires TimelyInv(c, s)
    ensures InRange(c, s) && InRange(c, Bare(s)) && s.Next() <= |c.blocks| && s.Next() <= s.Written() + 256
    ensures |s.rcv.ring| == c.w && (s.Written() == 0 ==> s.Next() <= 1)
  {
    hide S.KeepsLatest, S.RestEmpty, R.Pending, R.Valid;
  }

  /** Losing everything under way keeps the invariant. */
  lemma BareKeeps(c: Config, s: System)
    requires Inv(c, s)
    ensures Inv(c, Bare(s))
  {
    hide Slot, S.RingInv, R.Pending, R.Valid;
  }

  lemma StillTruthful(c: Config, s: System, s': System, q: seq<Message>)
    requires AllTruthful(c, s, q) && s.Next() <= s'.Next()
    ensures AllTruthful(c, s', q)
  {
  }

  /** The steps of the sender do not depend on what is under way. */
  lemma SenderStepIs(c: Config, s: System, a: Action)
    requires InRange(c, s) && !a.LoseData? && !a.LoseAck? && !a.DeliverData? && !a.DeliverAck?
    ensures InRange(c, Bare(s))
    ensures var s', t := Step(c, s, a), Step(c, Bare(s), a);
            s' == t.(data := s.data + t.data, acks := s.acks) && Enabled(c, s, a) == Enabled(c, Bare(s), a)
    ensures s.Next() <= Step(c, s, a).Next() && Step(c, s, a).rcv == s.rcv
  {
    hide S.Oldest, S.MayRead, S.LatestIn, R.Indexed, S.Sendable;
  }

  lemma SenderInTime(c: Config, s: System, a: Action)
    requires TimelyInv(c, s) && !a.LoseData? && !a.LoseAck? && !a.DeliverData? && !a.DeliverAck?
    requires InRange(c, s) && InTime(c, s, a)
    ensures TimelyInv(c, Step(c, s, a)) && Step(c, s, a).Written() == s.Written() && s.Next() <= Step(c, s, a).Next()
  {
    hide Inv, Step, S.HasRoom, Enabled;
    SenderStepIs(c, s, a);
    FlowStep(c, Bare(s), a);
    var t := Step(c, Bare(s), a);
    BareKeeps(c, t);
    assert AllTruthful(c, t, t.data) by { TruthfulInInv(c, t); }
    StillTruthful(c, s, t, s.data);
  }

  lemma TruthfulInInv(c: Config, s: System)
    requires Inv(c, s)
    ensures AllTruthful(c, s, s.data)
  {
    hide S.RingInv, ReceiverInv, AckInv, R.Pending, Slot;
  }

  lemma LoseInTime(c: Config, s: System, a: Action)
    requires TimelyInv(c, s) && (a.LoseData? || a.LoseAck?)
    ensures InRange(c, s) && TimelyInv(c, Step(c, s, a))
    ensures Step(c, s, a).Written() == s.Written() && Step(c, s, a).Next() == s.Next()
  {
    TimelyGives(c, s);
    hide Inv;
  }

  lemma OneAck(c: Config, s: System, k: Ack)
    requires Inv(c, Bare(s)) && AckTrue(c.w, s.Written(), k) && s.base <= k.origin
    ensures Inv(c, Bare(s).(acks := [k]))
  {
    hide Slot, S.RingInv, R.Pending, R.Valid;
  }

  lemma TakesTheSame(c: Config, s: System)
    requires InRange(c, s) && Enabled(c, s, DeliverAck) && InRange(c, Bare(s).(acks := [s.acks[0]]))
    ensures var t, s' := Bare(s).(acks := [s.acks[0]]), Step(c, s, DeliverAck);
            && Enabled(c, t, DeliverAck) && Bare(s') == Bare(Step(c, t, DeliverAck))
            && s' == s.(snd := s'.snd, base := s'.base, acks := s.acks[1..]) && s'.Next() == s.Next()
  {
    hide S.InRange, S.Sendable, R.Indexed;
  }

  lemma AckInTime(c: Config, s: System)
    requires TimelyInv(c, s) && InRange(c, s) && Enabled(c, s, DeliverAck) && s.base <= s.acks[0].origin
    ensures TimelyInv(c, Step(c, s, DeliverAck))
    ensures Step(c, s, DeliverAck).Written() == s.Written() && Step(c, s, DeliverAck).Next() == s.Next()
  {
    hide Inv, Step, InRange;
    var k, s' := s.acks[0], Step(c, s, DeliverAck);
    assert AckTrue(c.w, s.Written(), k);
    OneAck(c, s, k);
    var t := Bare(s).(acks := [k]);
    assert InRange(c, t) by { InvInRange(c, t); }
    TakesTheSame(c, s);
    FlowStep(c, t, DeliverAck);
    BareKeeps(c, Step(c, t, DeliverAck));
    StillTruthful(c, s, s', s.data);
  }

  lemma DataInTime(c: Config, s: System)
    requires TimelyInv(c, s) && InRange(c, s) && Enabled(c, s, DeliverData) && InTime(c, s, DeliverData)
    ensures TimelyInv(c, Step(c, s, DeliverData))
    ensures s.Written() <= Step(c, s, DeliverData).Written() && Step(c, s, DeliverData).Next() == s.Next()
  {
    TimelyGives(c, s);
    var m, s' := s.data[0], Step(c, s, DeliverData);
    assert Truthful(c, s, m);
    if m.Data? {
      BareReceives(c, s, m);
      MoreWritten(c.w, s.Written(), s'.Written(), s.acks);
      assert s'.acks == s.acks + [Ack(s'.rcv.seqExp, c.w, s'.Written())];
    } else {
      BareEnds(c, s);
    }
    hide Inv, R.Receive;
    StillTruthful(c, s, s', s.data[1..]);
  }

  lemma BareReceives(c: Config, s: System, m: Message)
    requires TimelyInv(c, s) && m.Data? && Truthful(c, s, m) && R.Indexed(s.rcv)
    requires s.Written() + c.w <= m.origin + 256 && s.Next() <= s.Written() + 256
    requires s.Written() == 0 ==> s.Next() <= 1
    ensures var s' := s.(rcv := R.Receive(s.rcv, m.num, m.block));
            && Inv(c, Bare(s')) && FlowControlled(s') && s.Written() <= s'.Written()
            && 1 <= s'.Written() && s'.rcv.seqExp == s'.Written() % 256
  {
    hide Slot, S.RingInv, R.Receive, R.Pending;
    ReceiveKeeps(c, Bare(s), m);
    if s.Written() == 0 {
      NextIsWritten(s.rcv, m.block);
    }
  }

  lemma BareEnds(c: Config, s: System)
    requires TimelyInv(c, s)
    ensures Inv(c, Bare(s.(rcv := s.rcv.(ended := true))))
  {
    hide Slot, S.RingInv, R.Pending, R.Valid;
    EndPending(s.rcv);
  }

  lemma TimelyStep(c: Config, s: System, a: Action)
    requires TimelyInv(c, s) && InRange(c, s) && InTime(c, s, a)
    ensures TimelyInv(c, Step(c, s, a))
    ensures s.Written() <= Step(c, s, a).Written() && s.Next() <= Step(c, s, a).Next()
  {
    hide TimelyInv;
    if a.LoseData? || a.LoseAck? {
      LoseInTime(c, s, a);
    } else if !Enabled(c, s, a) {
      assert Step(c, s, a) == s;
    } else if a.DeliverData? {
      DataInTime(c, s);
    } else if a.DeliverAck? {
      AckInTime(c, s);
    } else {
      SenderInTime(c, s, a);
    }
  }

  lemma {:induction false} TimelySteps(c: Config, s: System, steps: seq<Action>)
    requires TimelyInv(c, s) && InRange(c, s) && StepsInTime(c, s, steps)
    ensures TimelyInv(c, Perform(c, s, steps))
    ensures s.Written() <= Perform(c, s, steps).Written() && s.Next() <= Perform(c, s, steps).Next()
    decreases |steps|
  {
    hide TimelyInv, Step, InTime;
    if steps != [] {
      var n := |steps| - 1;
      TimelySteps(c, s, steps[..n]);
      TimelyStep(c, Perform(c, s, steps[..n]), steps[n]);
    }
  }

  // ---------------------------------------------------------------------------
  // Over whole runs

  predicate NetTimely(c: Config, n: Net) {
    && TimelyInv(c, n.sys)
    && AllTruthful(c, n.sys, n.dataSent) && AcksTrue(c.w, n.sys.Written(), n.acksSent)
  }

  lemma AllStillTruthful(c: Config, s: System, sent: seq<Message>, before: seq<Message>, after: seq<Message>)
    requires AllTruthful(c, s, sent) && AllTruthful(c, s, after)
    ensures AllTruthful(c, s, sent + Appended(before, after)) && AllTruthful(c, s, sent + [])
  {
    hide Truthful;
    var added := Appended(before, after);
    forall i | 0 <= i < |sent + added|
      ensures Truthful(c, s, (sent + added)[i])
    {
      if i < |sent| {
        assert (sent + added)[i] == sent[i];
      } else {
        assert (sent + added)[i] == added[i - |sent|] == after[|before| + (i - |sent|)];
      }
    }
    assert sent + [] == sent;
  }

  lemma TimelyTurn(c: Config, n: Net, t: Turn)
    requires NetInRange(c, n) && NetTimely(c, n) && StepsInTime(c, n.sys, Steps(c, n.sys, t))
    ensures NetTimely(c, Happen(c, n, Loop(t)))
  {
    TimelySteps(c, n.sys, Steps(c, n.sys, t));
    var s' := After(c, n.sys, t);
    assert AllTruthful(c, s', s'.data) && AcksTrue(c.w, s'.Written(), s'.acks);
    hide Perform, Steps, TimelyInv;
    StillTruthful(c, n.sys, s', n.dataSent);
    AllStillTruthful(c, s', n.dataSent, n.sys.data, s'.data);
    MoreWritten(c.w, n.sys.Written(), s'.Written(), n.acksSent);
    AckDisorder.StillTrue(c.w, s'.Written(), n.acksSent, n.sys.acks, s'.acks);
    hide AllTruthful, AcksTrue;
  }

  lemma TimelyRepeat(c: Config, n: Net, e: Event)
    requires NetInRange(c, n) && NetTimely(c, n) && !e.Loop?
    ensures NetTimely(c, Happen(c, n, e))
  {
    hide Inv, After;
    if e.RepeatData? && e.i < |n.dataSent| {
      assert Truthful(c, n.sys, n.dataSent[e.i]);
    } else if e.RepeatAck? && e.i < |n.acksSent| {
      assert AckTrue(c.w, n.sys.Written(), n.acksSent[e.i]);
    }
  }

  lemma TimelyInitially(c: Config)
    requires c.Valid()
    ensures NetTimely(c, NetInitial(c))
  {
    hide Inv;
    InvInitially(c);
    assert Bare(Initial(c)) == Initial(c);
  }

  lemma {:induction false} TimelyAlways(c: Config, events: seq<Event>)
    requires c.Valid() && RunsInTime(c, events)
    ensures NetTimely(c, NetRun(c, events))
  {
    if events == [] {
      TimelyInitially(c);
    } else {
      hide NetTimely, Happen, StepsInTime;
      var past, e := events[..|events| - 1], events[|events| - 1];
      TimelyAlways(c, past);
      if e.Loop? {
        TimelyTurn(c, NetRun(c, past), e.turn);
      } else {
        TimelyRepeat(c, NetRun(c, past), e);
      }
    }
  }

  /** For a file of any length and a network that repeats data packets and
      acknowledgements in any order, as long as they are in time: what is written is
      the beginning of the file, the window is respected, and the timer resends
      exactly the oldest unacknowledged block. */
  lemma SafeInTime(c: Config, events: seq<Event>)
    requires c.Valid() && RunsInTime(c, events)
    ensures var s := NetRun(c, events).sys;
            && WrotePrefix(c, s) && FlowControlled(s) && s.Next() <= |c.blocks|
            && (s.base < s.Next() ==>
                  && S.Oldest(s.snd).Some? && S.Oldest(s.snd).value.block == c.blocks[s.base]
                  && S.Oldest(s.snd).value.num == s.base % 256)
  {
    TimelyAlways(c, events);
    var s := NetRun(c, events).sys;
    TimelyGives(c, s);
    hide NetRun, R.Valid, R.Pending, S.Oldest, Slot, RunsInTime;
    if s.base < s.Next() {
      S.OldestIs(s.snd, c.blocks, c.w);
    }
  }

  // ---------------------------------------------------------------------------
  // Channels that keep their order are always in time

  lemma OrderedStep(c: Config, run: seq<Action>, a: Action)
    requires c.Valid() && SendsInRoom(c, run)
    requires a == SendBlock && Enabled(c, Run(c, run), a) ==> S.HasRoom(Run(c, run).snd)
    ensures InTime(c, Run(c, run), a)
  {
    FlowAlways(c, run);
    var s := Run(c, run);
    hide Run, SendsInRoom, S.RingInv, ReceiverInv, Overtaking, Slot, S.HasRoom;
    if a.DeliverAck? && Enabled(c, s, a) {
      assert AckOk(c, s, s.acks[0]);
    } else if a.DeliverData? && Enabled(c, s, a) {
      DataInvAt(c, s, 0);
    }
  }

  lemma {:induction false} OrderedSteps(c: Config, run: seq<Action>, steps: seq<Action>)
    requires c.Valid() && SendsInRoom(c, run + steps)
    ensures SendsInRoom(c, run) && StepsInTime(c, Run(c, run), steps)
    decreases |steps|
  {
    hide Step, InTime, S.HasRoom;
    if steps == [] {
      assert run + steps == run;
    } else {
      var n := |steps| - 1;
      assert (run + steps)[..|run + steps| - 1] == run + steps[..n];
      OrderedSteps(c, run, steps[..n]);
      PerformRun(c, run, steps[..n]);
      OrderedStep(c, run + steps[..n], steps[n]);
    }
  }

  /** So runs in which nothing is repeated and there is room at each send are a
      special case. */
  lemma {:induction false} OrderedInTime(c: Config, turns: seq<Turn>)
    requires c.Valid() && SendsInRoom(c, Actions(c, turns))
    ensures RunsInTime(c, Loops(turns))
  {
    hide After, StepsInTime, SendsInRoom, Run;
    if turns != [] {
      var past, t := turns[..|turns| - 1], turns[|turns| - 1];
      TurnsAreSteps(c, past);
      OrderedSteps(c, Actions(c, past), Steps(c, TurnRun(c, past), t));
      OrderedInTime(c, past);
      NothingRepeated(c, past);
    }
  }
}
