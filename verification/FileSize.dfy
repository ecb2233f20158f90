/** How long a file may be before the sender's plain difference of two wrapped
    numbers goes wrong: the exact limits, for every window. */
module FileSize {
  import opened Common
  import opened Ring
  import opened Protocol
  import opened Safety
  import opened Turns
  import opened Leading
  import S = SenderSpec
  import R = ReceiverSpec

  /** What the test as it stands guarantees: flow control up to block 256, and
      beyond it only that the window had reached the wrap. */
  predicate TestInv(c: Config, s: System) {
    && (s.Next() <= 256 ==> s.Next() <= s.base + s.snd.window)
    && (s.Next() > 256 ==> s.base + c.w >= 256)
  }

  lemma TestAllowsSend(c: Config, s: System)
    requires Inv(c, s) && TestInv(c, s) && Enabled(c, s, SendBlock)
    ensures s.Next() < 256 ==> S.HasRoom(s.snd) && s.Next() < s.base + s.snd.window
    ensures |c.blocks| <= 512 - c.w ==> s.Next() < s.base + 256
  {
    hide Slot, S.RingInv, R.Pending, R.Valid, S.HasRoom, S.MayRead, Unambiguous, ReceiverInv, DataInv;
    RingInvGives(c, s);
    BaseBehind(c, s);
    if s.Next() <= 256 {
      RoomIsDistance(c, s);
    }
  }

  lemma TestStep(c: Config, s: System, a: Action)
    requires Inv(c, s) && TestInv(c, s) && |c.blocks| <= 512 - c.w
    ensures Inv(c, Step(c, s, a)) && TestInv(c, Step(c, s, a))
  {
    hide Slot, S.RingInv, R.Pending, R.Valid, S.HasRoom, S.MayRead;
    if a == SendBlock && Enabled(c, s, a) {
      TestAllowsSend(c, s);
      SendGives(s.snd, c.blocks[s.snd.seqInd]);
    }
    InvStep(c, s, a);
    RingInvGives(c, s);
    if a == DeliverAck && Enabled(c, s, a) {
      assert AckOk(c, s, s.acks[0]);
      SlideMovesBase(c, s, s.acks[0]);
    }
  }

  lemma {:induction false} TestAlways(c: Config, run: seq<Action>)
    requires c.Valid() && |c.blocks| <= 512 - c.w
    ensures Inv(c, Run(c, run)) && TestInv(c, Run(c, run)) && SendsUnambiguous(c, run)
  {
    hide Inv, TestInv, Step;
    if run == [] {
      InvInitially(c);
      TestInitially(c);
    } else {
      var past := run[..|run| - 1];
      TestAlways(c, past);
      if run[|run| - 1] == SendBlock && Enabled(c, Run(c, past), SendBlock) {
        TestAllowsSend(c, Run(c, past));
      }
      TestStep(c, Run(c, past), run[|run| - 1]);
    }
  }

  lemma TestInitially(c: Config)
    ensures TestInv(c, Initial(c))
  {
  }

  lemma {:induction false} SmallFileInRoom(c: Config, run: seq<Action>)
    requires c.Valid() && |c.blocks| <= 256
    ensures SendsInRoom(c, run)
  {
    hide Inv, TestInv, Step;
    if run != [] {
      var past := run[..|run| - 1];
      SmallFileInRoom(c, past);
      TestAlways(c, past);
      if run[|run| - 1] == SendBlock && Enabled(c, Run(c, past), SendBlock) {
        TestAllowsSend(c, Run(c, past));
      }
    }
  }

  // ---------------------------------------------------------------------------
  // Runs of the loops that show that the limits are sharp

  /** `256 - w` blocks are written and acknowledged, so that the whole window lies
      before the wrap; from there on all blocks are lost. */
  lemma FloodFromEdge(c: Config, k: nat) returns (edge: seq<Turn>, turns: seq<Turn>)
    requires c.Valid() && 257 - c.w + k <= |c.blocks|
    ensures Defined(c, turns) && Ahead(c, TurnRun(c, edge), 256 - c.w)
    ensures Flooded(c, TurnRun(c, edge), TurnRun(c, turns), k)
  {
    hide TurnRun, Defined, Ahead, Flooded;
    edge := LeadAlone(c, 256 - c.w);
    AheadGives(c, TurnRun(c, edge), 256 - c.w);
    NotYetFlooded(c, TurnRun(c, edge), 256 - c.w);
    turns := Flood(c, edge, k);
  }

  /** The `w`th block sent from there breaks flow control. */
  lemma FlowBreaks(c: Config) returns (turns: seq<Turn>)
    requires c.Valid() && |c.blocks| > 256
    ensures Defined(c, turns) && !FlowControlled(TurnRun(c, turns))
  {
    var edge: seq<Turn>;
    edge, turns := FloodFromEdge(c, c.w);
    hide TurnRun, Defined, Inv;
  }

  /** The block 256 places behind the expected one carries the expected number:
      it is written in its place. */
  lemma PrefixBreaks(c: Config) returns (turns: seq<Turn>)
    requires c.Valid() && |c.blocks| > 512 - c.w
    ensures Defined(c, turns)
    ensures var out := TurnRun(c, turns).rcv.out;
            |out| > 256 - c.w && out[..256 - c.w] == c.blocks[..256 - c.w] && out[256 - c.w] == c.blocks[512 - c.w]
  {
    hide TurnRun, Defined, Ahead, Flooded, Step, S.MayRead, S.Oldest;
    var edge, flood := FloodFromEdge(c, 255);
    var s, t := TurnRun(c, edge), TurnRun(c, flood);
    AheadGives(c, s, 256 - c.w);
    FloodedGives(c, s, t, 255);
    FloodGoesOn(c, s, t, 255);
    SenderTurns(c, flood, false);
    OtherTurns(c, flood + [SenderTurn(false)], ReceiverTurn);
    turns := flood + [SenderTurn(false)] + [ReceiverTurn];
    AliasIsWritten(c, s, t);
  }

  lemma AliasIsWritten(c: Config, s: System, t: System)
    requires c.Valid() && |c.blocks| > 512 - c.w && Ahead(c, s, 256 - c.w)
    requires Flooded(c, s, t, 255) && S.MayRead(t.snd)
    ensures var t' := Step(c, Step(c, t, SendBlock), DeliverData);
            t'.Written() > 256 - c.w && t'.rcv.out[256 - c.w] == c.blocks[512 - c.w]
            && t'.rcv.out[..256 - c.w] == c.blocks[..256 - c.w]
  {
    hide Slot, S.RingInv, R.Pending, R.Receive, S.MayRead;
    FloodOne(c, s, t, 255);
    var n, x := 256 - c.w, c.blocks[512 - c.w];
    assert Step(c, t, SendBlock).data == [Data(t.snd.seqExp, x, 512 - c.w)];
    assert t.snd.seqExp == n % 256;
    ReceiveAdds(s.rcv, n, x);
    NextIsWritten(s.rcv, x);
  }

  // ---------------------------------------------------------------------------
  // The limits

  ghost predicate AlwaysFlowControlled(c: Config)
    requires c.Valid()
  {
    forall turns: seq<Turn> :: Defined(c, turns) ==> FlowControlled(TurnRun(c, turns))
  }

  ghost predicate AlwaysPrefix(c: Config)
    requires c.Valid()
  {
    forall turns: seq<Turn> :: Defined(c, turns) ==> WrotePrefix(c, TurnRun(c, turns))
  }

  /** The sender as it is keeps flow control in every run of the loops exactly for
      files of at most 256 blocks; for these, in whatever order the steps come. */
  lemma FlowControlLimit(c: Config)
    requires c.Valid()
    ensures AlwaysFlowControlled(c) <==> |c.blocks| <= 256
    ensures |c.blocks| <= 256 ==> forall run: seq<Action> :: FlowControlled(Run(c, run))
  {
    if |c.blocks| <= 256 {
      forall run: seq<Action>
        ensures FlowControlled(Run(c, run))
      {
        SmallFileInRoom(c, run);
        FlowAlways(c, run);
      }
      forall turns: seq<Turn>
        ensures FlowControlled(TurnRun(c, turns))
      {
        TurnsAreSteps(c, turns);
      }
    } else {
      var turns := FlowBreaks(c);
    }
  }

  /** A file of `t` blocks in which only block `m` differs from the others. */
  function MarkedBlocks(t: nat, m: nat): (blocks: seq<Block>)
    ensures |blocks| == t && forall i :: 0 <= i < t ==> blocks[i] == if i == m then [1] else [0]
  {
    if t == 0 then [] else MarkedBlocks(t - 1, m) + [if t - 1 == m then [1] else [0]]
  }

  /** It transfers every file of `t` blocks correctly in every run of the loops
      exactly if `t` is at most 512 less the window. */
  lemma FileLimit(t: nat, w: nat)
    requires 1 <= w <= MAX_WINDOW_SIZE
    ensures (forall c: Config :: c.Valid() && c.w == w && |c.blocks| == t ==> AlwaysPrefix(c)) <==> t <= 512 - w
  {
    if t <= 512 - w {
      forall c: Config, turns: seq<Turn> | c.Valid() && c.w == w && |c.blocks| == t
        ensures WrotePrefix(c, TurnRun(c, turns))
      {
        TurnsAreSteps(c, turns);
        TestAlways(c, Actions(c, turns));
        PrefixAlways(c, Actions(c, turns));
      }
    } else {
      var c := Config(MarkedBlocks(t, 512 - w), w);
      var turns := PrefixBreaks(c);
      assert !AlwaysPrefix(c);
    }
  }
}
