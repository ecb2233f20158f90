/** The two loops over a network that may also repeat what was sent before, at any
    time and any number of times, so that datagrams arrive in any order. */
module Network {
  import opened Common
  import opened Protocol
  import opened Turns
  import opened UnsetPointer
  import S = SenderSpec
  import R = ReceiverSpec

  /** `dataSent` and `acksSent` are all that was ever sent. `acked` is the block named
      by the last acknowledgement taken, and `slips` how many turns of 256 the slide of
      the sender is ahead of it; no step depends on these two. */
  datatype Net = Net(sys: System, dataSent: seq<Message>, acksSent: seq<Ack>, acked: nat, slips: int)

  /** A turn of a loop or the loss of a datagram, or a datagram sent earlier that
      arrives before those under way. */
  datatype Event = Loop(turn: Turn) | RepeatData(i: nat) | RepeatAck(i: nat)

  predicate NetInRange(c: Config, n: Net) {
    InRange(c, n.sys) && forall i :: 0 <= i < |n.acksSent| ==> n.acksSent[i].window <= MAX_WINDOW_SIZE
  }

  function NetInitial(c: Config): Net {
    Net(Initial(c), [], [], 0, 0)
  }

  /** What was appended to a channel. */
  function Appended<T>(before: seq<T>, after: seq<T>): (q: seq<T>)
    ensures forall i :: 0 <= i < |q| ==> |before| + i < |after| && q[i] == after[|before| + i]
  {
    if |before| <= |after| then after[|before|..] else []
  }

  /** The acknowledgement that the sender takes in its turn. */
  predicate Takes(s: System, t: Turn) {
    t.SenderTurn? && s.phase == Reading && t.arrives && s.acks != []
  }

  /** The slide goes forwards to block `k`: once round for every 256 that this falls
      behind block `acked`. */
  function Slipped(slips: int, acked: nat, k: nat): int {
    slips - (k - acked) / 256
  }

  function Happen(c: Config, n: Net, e: Event): (n': Net)
    requires NetInRange(c, n)
    ensures NetInRange(c, n')
  {
    match e
    case Loop(t) =>
      var s, s' := n.sys, After(c, n.sys, t);
      var k := if Takes(s, t) then s.acks[0].origin else n.acked;
      Net(s',
          n.dataSent + (if t.SenderTurn? || t.EndTurn? then Appended(s.data, s'.data) else []),
          n.acksSent + (if t.ReceiverTurn? then Appended(s.acks, s'.acks) else []),
          k, Slipped(n.slips, n.acked, k))
    case RepeatData(i) =>
      if i < |n.dataSent| then n.(sys := n.sys.(data := [n.dataSent[i]] + n.sys.data)) else n
    case RepeatAck(i) =>
      if i < |n.acksSent| then n.(sys := n.sys.(acks := [n.acksSent[i]] + n.sys.acks)) else n
  }

  function NetRun(c: Config, events: seq<Event>): (n: Net)
    requires c.Valid()
    ensures NetInRange(c, n)
  {
    if events == [] then NetInitial(c) else Happen(c, NetRun(c, events[..|events| - 1]), events[|events| - 1])
  }

  /** No turn of the run reads a pointer that was not set. */
  predicate NetDefined(c: Config, events: seq<Event>)
    requires c.Valid()
  {
    events == [] ||
    var past, e := events[..|events| - 1], events[|events| - 1];
    NetDefined(c, past) && (e.Loop? ==> !ReadsUnset(c, NetRun(c, past).sys, e.turn))
  }

  lemma OnlySenderReads(c: Config, s: System, t: Turn)
    requires InRange(c, s) && !t.SenderTurn?
    ensures !ReadsUnset(c, s, t)
  {
  }

  lemma NetExtend(c: Config, events: seq<Event>, e: Event)
    requires c.Valid()
    ensures NetRun(c, events + [e]) == Happen(c, NetRun(c, events), e)
    ensures NetDefined(c, events + [e]) <==>
            NetDefined(c, events) && (e.Loop? ==> !ReadsUnset(c, NetRun(c, events).sys, e.turn))
  {
    assert (events + [e])[..|events|] == events;
  }

  // ---------------------------------------------------------------------------
  // Runs in which nothing is repeated

  function Loops(turns: seq<Turn>): (events: seq<Event>)
    ensures |events| == |turns| && forall i :: 0 <= i < |turns| ==> events[i] == Loop(turns[i])
  {
    if turns == [] then [] else Loops(turns[..|turns| - 1]) + [Loop(turns[|turns| - 1])]
  }

  /** A run of the loops is a run over this network. */
  lemma {:induction false} NothingRepeated(c: Config, turns: seq<Turn>)
    requires c.Valid()
    ensures NetRun(c, Loops(turns)).sys == TurnRun(c, turns)
    ensures NetDefined(c, Loops(turns)) <==> Defined(c, turns)
  {
    hide After, ReadsUnset, Takes;
    if turns != [] {
      var past := turns[..|turns| - 1];
      NothingRepeated(c, past);
      NetExtend(c, Loops(past), Loop(turns[|turns| - 1]));
    }
  }

  // ---------------------------------------------------------------------------
  // What holds whatever the network does

  /** The ring of the sender, in every run over this network. */
  predicate NetRings(c: Config, n: Net) {
    && Rings(c, n.sys)
    && DataAllowed(n.sys.snd.started, n.dataSent) && AcksAllowed(n.sys.snd.started, c.w, n.acksSent)
  }

  lemma {:induction false} RingsPerform(c: Config, s: System, steps: seq<Action>)
    requires Rings(c, s)
    ensures Rings(c, Perform(c, s, steps)) && (s.snd.started ==> Perform(c, s, steps).snd.started)
    decreases |steps|
  {
    hide Rings, Step;
    assert InRange(c, s) by { RingsInRange(c, s); }
    if steps != [] {
      var n := |steps| - 1;
      RingsPerform(c, s, steps[..n]);
      RingsStep(c, Perform(c, s, steps[..n]), steps[n]);
      StaysStarted(c, Perform(c, s, steps[..n]), steps[n]);
    }
  }

  lemma RingsInRange(c: Config, s: System)
    requires Rings(c, s)
    ensures InRange(c, s)
  {
  }

  lemma StaysStarted(c: Config, s: System, a: Action)
    requires InRange(c, s)
    ensures s.snd.started ==> Step(c, s, a).snd.started
  {
    hide S.MayRead, S.Oldest, R.Receive;
  }

  lemma NetRingsTurn(c: Config, n: Net, t: Turn)
    requires NetRings(c, n)
    ensures NetInRange(c, n) && NetRings(c, Happen(c, n, Loop(t)))
  {
    RingsInRange(c, n.sys);
    assert NetInRange(c, n);
    RingsPerform(c, n.sys, Steps(c, n.sys, t));
    hide Perform, Rings, Steps, InRange;
    var s' := After(c, n.sys, t);
    RingsAllow(c, s');
    StillAllowed(n.dataSent, n.sys.data, s'.data, n.acksSent, n.sys.acks, s'.acks, s'.snd.started, c.w);
  }

  lemma RingsAllow(c: Config, s: System)
    requires Rings(c, s)
    ensures DataAllowed(s.snd.started, s.data) && AcksAllowed(s.snd.started, c.w, s.acks)
  {
  }

  lemma StillAllowed(data: seq<Message>, before: seq<Message>, after: seq<Message>,
                     acks: seq<Ack>, acksBefore: seq<Ack>, acksAfter: seq<Ack>, started: bool, w: nat)
    requires DataAllowed(started, data) && DataAllowed(started, after)
    requires AcksAllowed(started, w, acks) && AcksAllowed(started, w, acksAfter)
    ensures DataAllowed(started, data + Appended(before, after)) && DataAllowed(started, data + [])
    ensures AcksAllowed(started, w, acks + Appended(acksBefore, acksAfter)) && AcksAllowed(started, w, acks + [])
  {
    var added := Appended(acksBefore, acksAfter);
    forall i | 0 <= i < |acks + added|
      ensures (acks + added)[i].window == w && started
    {
      if i < |acks| {
        assert (acks + added)[i] == acks[i];
      } else {
        assert (acks + added)[i] == added[i - |acks|] == acksAfter[|acksBefore| + (i - |acks|)];
      }
    }
    assert acks + [] == acks;
  }

  lemma NetRingsRepeat(c: Config, n: Net, e: Event)
    requires NetRings(c, n) && !e.Loop?
    ensures NetInRange(c, n) && NetRings(c, Happen(c, n, e))
  {
    hide S.RingInv, After;
    assert NetInRange(c, n) by { RingsInRange(c, n.sys); }
    if e.RepeatData? && e.i < |n.dataSent| {
      assert DataAllowed(n.sys.snd.started, [n.dataSent[e.i]]);
    } else if e.RepeatAck? && e.i < |n.acksSent| {
      assert AcksAllowed(n.sys.snd.started, c.w, [n.acksSent[e.i]]);
    }
  }

  lemma NetRingsHappen(c: Config, n: Net, e: Event)
    requires NetRings(c, n)
    ensures NetInRange(c, n) && NetRings(c, Happen(c, n, e))
  {
    hide NetRings, Happen, NetInRange;
    if e.Loop? {
      NetRingsTurn(c, n, e.turn);
    } else {
      NetRingsRepeat(c, n, e);
    }
  }

  lemma {:induction false} NetRingsAlways(c: Config, events: seq<Event>)
    requires c.Valid()
    ensures NetRings(c, NetRun(c, events))
  {
    if events == [] {
      RingsAlways(c, []);
      NoSteps(c);
    } else {
      hide NetRings, Happen;
      NetRingsAlways(c, events[..|events| - 1]);
      NetRingsHappen(c, NetRun(c, events[..|events| - 1]), events[|events| - 1]);
    }
  }
}
