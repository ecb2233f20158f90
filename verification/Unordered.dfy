/** A network that delivers in any order and any number of times, in both
    directions: the exact limit on the length of the file. */
module Unordered {
  import opened Common
  import opened Ring
  import opened Protocol
  import opened Safety
  import opened Turns
  import opened UnsetPointer
  import opened Leading
  import opened Network
  import FileSize
  import S = SenderSpec
  import R = ReceiverSpec

  /** What every data packet of a short file says: its number is that of its
      block. */
  predicate DataTrue(c: Config, q: seq<Message>) {
    forall i :: 0 <= i < |q| ==> MessageTrue(c, q[i])
  }

  predicate MessageTrue(c: Config, m: Message) {
    m.Data? ==> m.origin < |c.blocks| && m.num == m.origin && m.block == c.blocks[m.origin]
  }

  /** The receiver has written the beginning of the file. What it holds under a
      number below 256 is right; above there may be anything. */
  predicate Tame(c: Config, s: System)
    requires |s.rcv.ring| > 0
  {
    && R.Valid(s.rcv) && s.rcv.ring[s.rcv.index].None? && WrotePrefix(c, s) && HeldTrue(c, s.rcv)
    && DataTrue(c, s.data)
  }

  predicate HeldTrue(c: Config, r: R.Receiver)
    requires |r.ring| > 0
  {
    forall a :: a in R.Pending(r) && a < 256 ==> a < |c.blocks| && R.Pending(r)[a] == c.blocks[a]
  }

  /** The number that the receiver takes a packet of block `a` for. */
  function TakenAs(a: nat, written: nat, w: nat): nat {
    if written + w <= a + 256 then a else a + 256
  }

  lemma TameReceive(c: Config, r: R.Receiver, m: Message)
    requires c.Valid() && |c.blocks| <= 255 && R.Valid(r) && |r.ring| == c.w && r.ring[r.index].None?
    requires |r.out| <= |c.blocks| && r.out == c.blocks[..|r.out|] && HeldTrue(c, r)
    requires m.Data? && MessageTrue(c, m)
    ensures var r' := R.Receive(r, m.num, m.block);
            && R.Valid(r') && |r'.ring| == c.w && r'.ring[r'.index].None?
            && |r'.out| <= |c.blocks| && r'.out == c.blocks[..|r'.out|] && HeldTrue(c, r')
  {
    hide Slot, R.Pending, R.Receive;
    var a, n, t, r' := TakenAs(m.origin, |r.out|, c.w), |r.out|, |c.blocks|, R.Receive(r, m.num, m.block);
    assert a % 256 == m.num;
    ReceiveAdds(r, a, m.block);
    assert t != a && t !in R.Pending(r);
    assert |r'.out| <= t;
    forall b | 0 <= b < |r'.out|
      ensures r'.out[b] == c.blocks[b]
    {
      if b < n {
        assert r'.out[b] == r'.out[..n][b];
      }
    }
  }

  lemma TameStep(c: Config, s: System, a: Action)
    requires Rings(c, s) && Tame(c, s) && |c.blocks| <= 255
    ensures |Step(c, s, a).rcv.ring| > 0 && Tame(c, Step(c, s, a))
  {
    hide Slot, S.RingInv, R.Pending, R.Valid, S.Oldest, S.LatestIn, R.Receive, S.Acknowledge, HeldTrue;
    RingInvGives(c, s);
    if Enabled(c, s, a) {
      match a
      case SendBlock => assert MessageTrue(c, Data(s.snd.seqExp, c.blocks[s.Next()], s.Next()));
      case Resend => S.OldestIs(s.snd, c.blocks, c.w);
      case DeliverData =>
        assert MessageTrue(c, s.data[0]);
        if s.data[0].Data? {
          TameReceive(c, s.rcv, s.data[0]);
        } else {
          EndTame(c, s.rcv);
        }
      case _ =>
    }
  }

  lemma EndTame(c: Config, r: R.Receiver)
    requires R.Valid(r) && HeldTrue(c, r)
    ensures R.Valid(r.(ended := true)) && HeldTrue(c, r.(ended := true))
  {
    EndPending(r);
  }

  lemma {:induction false} TamePerform(c: Config, s: System, steps: seq<Action>)
    requires Rings(c, s) && Tame(c, s) && |c.blocks| <= 255
    ensures InRange(c, s) && |Perform(c, s, steps).rcv.ring| > 0 && Tame(c, Perform(c, s, steps))
    decreases |steps|
  {
    assert InRange(c, s);
    hide Rings, Tame, Step;
    if steps != [] {
      var n := |steps| - 1;
      TamePerform(c, s, steps[..n]);
      RingsPerform(c, s, steps[..n]);
      TameStep(c, Perform(c, s, steps[..n]), steps[n]);
    }
  }

  predicate NetTame(c: Config, n: Net) {
    NetRings(c, n) && Tame(c, n.sys) && DataTrue(c, n.dataSent)
  }

  lemma StillTrue(c: Config, sent: seq<Message>, before: seq<Message>, after: seq<Message>)
    requires DataTrue(c, sent) && DataTrue(c, after)
    ensures DataTrue(c, sent + Appended(before, after)) && DataTrue(c, sent + [])
  {
    hide MessageTrue;
    var added := Appended(before, after);
    forall i | 0 <= i < |sent + added|
      ensures MessageTrue(c, (sent + added)[i])
    {
      if i < |sent| {
        assert (sent + added)[i] == sent[i];
      } else {
        assert (sent + added)[i] == added[i - |sent|] == after[|before| + (i - |sent|)];
      }
    }
    assert sent + [] == sent;
  }

  lemma TameTurn(c: Config, n: Net, t: Turn)
    requires NetTame(c, n) && |c.blocks| <= 255
    ensures NetInRange(c, n) && NetTame(c, Happen(c, n, Loop(t)))
  {
    NetRingsHappen(c, n, Loop(t));
    TamePerform(c, n.sys, Steps(c, n.sys, t));
    var s' := After(c, n.sys, t);
    assert DataTrue(c, s'.data);
    hide Perform, Rings, DataTrue, NetRings, R.Valid, HeldTrue;
    StillTrue(c, n.dataSent, n.sys.data, s'.data);
  }

  lemma TameRepeat(c: Config, n: Net, e: Event)
    requires NetTame(c, n) && !e.Loop?
    ensures NetInRange(c, n) && NetTame(c, Happen(c, n, e))
  {
    hide After, R.Valid, HeldTrue;
    NetRingsHappen(c, n, e);
    hide NetRings;
    if e.RepeatData? && e.i < |n.dataSent| {
      assert MessageTrue(c, n.dataSent[e.i]);
    }
  }

  lemma {:induction false} TameAlways(c: Config, events: seq<Event>)
    requires c.Valid() && |c.blocks| <= 255
    ensures NetTame(c, NetRun(c, events))
  {
    if events == [] {
      NetRingsAlways(c, []);
      InvInitially(c);
    } else {
      hide NetTame, Happen;
      var past, e := events[..|events| - 1], events[|events| - 1];
      TameAlways(c, past);
      if e.Loop? {
        TameTurn(c, NetRun(c, past), e.turn);
      } else {
        TameRepeat(c, NetRun(c, past), e);
      }
    }
  }

  // ---------------------------------------------------------------------------
  // Block 0 arrives again in the place of block 256

  lemma {:induction false} HistoryGrows(c: Config, events: seq<Event>, k: nat)
    requires c.Valid() && k <= |events|
    ensures NetRun(c, events[..k]).dataSent <= NetRun(c, events).dataSent
    decreases |events|
  {
    hide Happen;
    if k == |events| {
      assert events[..k] == events;
    } else {
      var past := events[..|events| - 1];
      assert past[..k] == events[..k];
      HistoryGrows(c, past, k);
      NothingForgotten(c, NetRun(c, past), events[|events| - 1]);
    }
  }

  lemma NothingForgotten(c: Config, n: Net, e: Event)
    requires NetInRange(c, n)
    ensures n.dataSent <= Happen(c, n, e).dataSent
  {
    hide After;
  }

  lemma FirstSent(c: Config, turns: seq<Turn>)
    requires c.Valid() && |c.blocks| > 0 && turns != [] && turns[0] == SenderTurn(false)
    ensures NetRun(c, Loops(turns)).dataSent != []
    ensures NetRun(c, Loops(turns)).dataSent[0] == Data(0, c.blocks[0], 0)
  {
    hide Happen, After;
    HistoryGrows(c, Loops(turns), 1);
    assert Loops(turns)[..1] == [] + [Loop(turns[0])];
    NetExtend(c, [], Loop(turns[0]));
    FirstTurn(c);
    hide NetRun, NetDefined;
  }

  lemma FirstTurn(c: Config)
    requires c.Valid() && |c.blocks| > 0
    ensures Happen(c, NetInitial(c), Loop(SenderTurn(false))).dataSent == [Data(0, c.blocks[0], 0)]
  {
    SenderTurnIs(c, Initial(c), false);
    hide After, Perform;
    assert Step(c, Initial(c), SendBlock).data == [Data(0, c.blocks[0], 0)];
  }

  /** `256` blocks are written, and block 0 arrives once more. */
  lemma LateBlock(c: Config, s: System)
    requires Ahead(c, s, 255) && UnderWay(s, 255)
    ensures InRange(c, s)
    ensures var s1 := Step(c, s, DeliverData);
            var s2 := Step(c, s1.(data := [Data(0, c.blocks[0], 0)] + s1.data), DeliverData);
            && |c.blocks| >= 256
            && |s2.rcv.out| > 256 && s2.rcv.out[..256] == c.blocks[..256] && s2.rcv.out[256] == c.blocks[0]
  {
    hide Slot, S.RingInv, R.Pending, R.Receive, DataInv, AckInv;
    Answered(c, s, 255);
    var s1 := Step(c, s, DeliverData);
    AheadHasBlocks(c, s);
    ReceiveAdds(s1.rcv, 256, c.blocks[0]);
    NextIsWritten(s1.rcv, c.blocks[0]);
  }

  lemma AheadHasBlocks(c: Config, s: System)
    requires Ahead(c, s, 255)
    ensures |c.blocks| >= 256
  {
  }

  lemma LateRepeat(c: Config) returns (events: seq<Event>)
    requires c.Valid() && |c.blocks| >= 256
    ensures NetDefined(c, events)
    ensures var out := NetRun(c, events).sys.rcv.out;
            |out| > 256 && out[..256] == c.blocks[..256] && out[256] == c.blocks[0]
  {
    hide TurnRun, Defined, NetDefined, Ahead, UnderWay, Step, After, ReadsUnset;
    var lead := Lead(c, 255);
    NothingRepeated(c, lead);
    FirstSent(c, lead);
    LateBlock(c, TurnRun(c, lead));
    var e0 := Loops(lead);
    var e1 := e0 + [Loop(ReceiverTurn)];
    var e2 := e1 + [RepeatData(0)];
    events := e2 + [Loop(ReceiverTurn)];
    NetExtend(c, e0, Loop(ReceiverTurn));
    NetExtend(c, e1, RepeatData(0));
    NetExtend(c, e2, Loop(ReceiverTurn));
    OtherTurnIs(c, NetRun(c, e0).sys, ReceiverTurn);
    OtherTurnIs(c, NetRun(c, e2).sys, ReceiverTurn);
    OnlySenderReads(c, NetRun(c, e0).sys, ReceiverTurn);
    OnlySenderReads(c, NetRun(c, e2).sys, ReceiverTurn);
    HistoryGrows(c, e1, |e0|);
    assert e1[..|e0|] == e0;
  }

  /** If anything sent may arrive at any time and any number of times, every file of
      `t` blocks is received as a prefix in every run of the loops exactly if `t` is
      at most 255, whatever the window. */
  lemma UnorderedLimit(t: nat, w: nat)
    requires 1 <= w <= MAX_WINDOW_SIZE
    ensures (forall c: Config, events: seq<Event> ::
               c.Valid() && c.w == w && |c.blocks| == t && NetDefined(c, events) ==>
                 WrotePrefix(c, NetRun(c, events).sys))
            <==> t <= 255
  {
    if t <= 255 {
      forall c: Config, events: seq<Event> | c.Valid() && c.w == w && |c.blocks| == t
        ensures WrotePrefix(c, NetRun(c, events).sys)
      {
        TameAlways(c, events);
      }
    } else {
      var c := Config(FileSize.MarkedBlocks(t, 0), w);
      var events := LateRepeat(c);
      var out := NetRun(c, events).sys.rcv.out;
      assert |out| <= t ==> out[256] != c.blocks[..|out|][256];
    }
  }
}
