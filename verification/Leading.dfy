/** Runs of the loops that bring the transfer to any block of the file, and from
    there send blocks that are all lost. */
module Leading {
  import opened Ring
  import opened Protocol
  import opened Safety
  import opened Turns
  import LossFree
  import S = SenderSpec
  import R = ReceiverSpec

  /** `n` blocks are written and acknowledged, and the next one has been sent. */
  predicate Ahead(c: Config, s: System, n: nat) {
    && Inv(c, s) && s.phase == Reading && !s.rcv.ended && R.Pending(s.rcv) == map[]
    && s.base == s.Written() == n && s.Next() == n + 1 && s.acks == []
  }

  lemma AheadGives(c: Config, s: System, n: nat)
    requires Ahead(c, s, n)
    ensures InRange(c, s) && s.base == s.Written() == n && s.Next() == n + 1
  {
  }

  predicate UnderWay(s: System, n: nat) {
    |s.data| == 1 && s.data[0].Data? && s.data[0].origin == n
  }

  /** Its receiver takes the block and answers. */
  lemma Answered(c: Config, s: System, n: nat)
    requires Ahead(c, s, n) && UnderWay(s, n)
    ensures InRange(c, s) && Inv(c, Step(c, s, DeliverData))
    ensures var s' := Step(c, s, DeliverData);
            && s'.Written() == n + 1 && !s'.rcv.ended && R.Pending(s'.rcv) == map[] && s'.data == []
            && |s'.acks| == 1 && s'.acks[0].origin == n + 1
            && s'.snd == s.snd && s'.base == s.base && s'.phase == s.phase
  {
    hide Slot, S.RingInv, R.Pending, R.Valid, R.Receive;
    assert Truthful(c, s, s.data[0]);
    RingInvGives(c, s);
    LossFree.ReceiveInOrder(c, s.rcv, s.data[0]);
    InvDeliverData(c, s);
  }

  /** Block `n` is written, and its acknowledgement under way. */
  predicate Acknowledging(c: Config, s: System, n: nat) {
    && Inv(c, s) && s.phase == Reading && !s.rcv.ended && R.Pending(s.rcv) == map[] && s.data == []
    && s.base == n && s.Written() == s.Next() == n + 1 && |s.acks| == 1 && s.acks[0].origin == n + 1
  }

  /** The next block is sent before the answer is taken. */
  lemma SendThenTake(c: Config, s: System, n: nat)
    requires Acknowledging(c, s, n) && n + 1 < |c.blocks| && S.MayRead(s.snd)
    ensures InRange(c, s)
    ensures var s' := Step(c, Step(c, s, SendBlock), DeliverAck); Ahead(c, s', n + 1) && UnderWay(s', n + 1)
  {
    hide Slot, S.RingInv, R.Pending, R.Valid, S.Acknowledge, S.MayRead;
    SendGives(s.snd, c.blocks[n + 1]);
    var s1 := Step(c, s, SendBlock);
    InvStep(c, s, SendBlock);
    assert AckOk(c, s1, s1.acks[0]);
    SlideMovesBase(c, s1, s1.acks[0]);
    InvStep(c, s1, DeliverAck);
  }

  /** The answer is taken first, and makes room. */
  lemma TakeThenSend(c: Config, s: System, n: nat)
    requires Acknowledging(c, s, n) && n + 1 < |c.blocks|
    ensures InRange(c, s)
    ensures var s1 := Step(c, s, DeliverAck);
            && S.MayRead(s1.snd) && s1.phase == Reading && s1.Next() == n + 1
            && Ahead(c, Step(c, s1, SendBlock), n + 1) && UnderWay(Step(c, s1, SendBlock), n + 1)
  {
    hide Slot, S.RingInv, R.Pending, R.Valid, S.Acknowledge, S.MayRead;
    assert AckOk(c, s, s.acks[0]);
    SlideMovesBase(c, s, s.acks[0]);
    InvStep(c, s, DeliverAck);
    var s1 := Step(c, s, DeliverAck);
    RingInvGives(c, s1);
    RoomIsDistance(c, s1);
    assert S.InRange(s1.snd);
    SendGives(s1.snd, c.blocks[n + 1]);
    InvStep(c, s1, SendBlock);
  }

  lemma FirstBlock(c: Config)
    requires c.Valid() && |c.blocks| > 0
    ensures S.MayRead(Initial(c).snd) && Ahead(c, Step(c, Initial(c), SendBlock), 0)
    ensures UnderWay(Step(c, Initial(c), SendBlock), 0)
  {
    hide Slot, S.RingInv, R.Valid;
    InvInitially(c);
    InvStep(c, Initial(c), SendBlock);
  }

  lemma AnsweredIs(c: Config, s: System, n: nat)
    requires Ahead(c, s, n) && UnderWay(s, n)
    ensures InRange(c, s) && Acknowledging(c, Step(c, s, DeliverData), n)
  {
    hide Inv, Step, R.Pending;
    assert InRange(c, s) by { InvInRange(c, s); }
    Answered(c, s, n);
  }

  lemma AcknowledgingGives(c: Config, s: System, n: nat)
    requires Acknowledging(c, s, n)
    ensures s.phase == Reading && s.acks != [] && s.Next() == n + 1
  {
  }

  /** From one block to the next: the receiver's turn, and one turn of the sender,
      or two if it has to wait for the answer. */
  lemma {:induction false} Lead(c: Config, n: nat) returns (turns: seq<Turn>)
    requires c.Valid() && n < |c.blocks|
    ensures Defined(c, turns) && Ahead(c, TurnRun(c, turns), n) && UnderWay(TurnRun(c, turns), n)
    ensures turns != [] && turns[0] == SenderTurn(false)
  {
    hide Ahead, UnderWay, Acknowledging, Step, S.MayRead, S.Oldest;
    if n == 0 {
      FirstBlock(c);
      SenderTurns(c, [], false);
      turns := [] + [SenderTurn(false)];
    } else {
      hide TurnRun, Defined;
      var past := Lead(c, n - 1);
      AnsweredIs(c, TurnRun(c, past), n - 1);
      OtherTurns(c, past, ReceiverTurn);
      turns := Follow(c, past + [ReceiverTurn], n - 1);
    }
  }

  lemma Follow(c: Config, past: seq<Turn>, n: nat) returns (turns: seq<Turn>)
    requires c.Valid() && Defined(c, past) && Acknowledging(c, TurnRun(c, past), n) && n + 1 < |c.blocks|
    ensures Defined(c, turns) && Ahead(c, TurnRun(c, turns), n + 1) && UnderWay(TurnRun(c, turns), n + 1)
    ensures past <= turns
  {
    hide Ahead, UnderWay, Acknowledging, Step, S.MayRead, S.Oldest, TurnRun, Defined;
    var s := TurnRun(c, past);
    AcknowledgingGives(c, s, n);
    turns := past + [SenderTurn(true)];
    SenderTurns(c, past, true);
    if S.MayRead(s.snd) {
      SendThenTake(c, s, n);
    } else {
      TakeThenSend(c, s, n);
      SenderTurns(c, turns, false);
      turns := turns + [SenderTurn(false)];
    }
  }

  /** The block under way is lost. */
  lemma LeadAlone(c: Config, n: nat) returns (turns: seq<Turn>)
    requires c.Valid() && n < |c.blocks|
    ensures Defined(c, turns) && Ahead(c, TurnRun(c, turns), n) && TurnRun(c, turns).data == []
  {
    hide Step, TurnRun, Defined, Ahead;
    var past := Lead(c, n);
    turns := past + [DropData(0)];
    OtherTurns(c, past, DropData(0));
    LoseOnly(c, TurnRun(c, past), n);
  }

  lemma LoseOnly(c: Config, s: System, n: nat)
    requires Ahead(c, s, n) && UnderWay(s, n)
    ensures InRange(c, s)
    ensures Ahead(c, Step(c, s, LoseData(0)), n) && Step(c, s, LoseData(0)).data == []
  {
    hide Inv, R.Pending;
    assert InRange(c, s) by { InvInRange(c, s); }
    InvStep(c, s, LoseData(0));
    assert Without(s.data, 0) == [];
  }

  // ---------------------------------------------------------------------------
  // Blocks sent into the void

  /** From `s` on `k` blocks more were sent, and all were lost. */
  predicate Flooded(c: Config, s: System, t: System, k: nat) {
    && InRange(c, t) && t.snd.window == c.w && t.snd.started
    && t.phase == Reading && t.rcv == s.rcv && t.base == s.base && t.data == [] && t.acks == []
    && t.snd.smallSeq == s.base % 256 && t.Next() == s.Next() + k && t.snd.seqExp == t.Next() % 256
  }

  lemma NotYetFlooded(c: Config, s: System, n: nat)
    requires Ahead(c, s, n) && s.data == [] && (n >= 1 || c.w == 1)
    ensures Flooded(c, s, s, 0)
  {
    hide Slot, S.RingInv, R.Pending, R.Valid;
    RingInvGives(c, s);
  }

  /** The test lets the sender read on: the window is not full, or its oldest
      number lies within a window of the wrap. */
  lemma FloodGoesOn(c: Config, s: System, t: System, k: nat)
    requires Flooded(c, s, t, k) && s.base <= t.Next() && (t.Next() < s.base + c.w || s.base % 256 + c.w >= 256)
    ensures S.MayRead(t.snd)
  {
    hide S.InRange;
    if s.base % 256 + c.w < 256 {
      PlainDifference(s.base, t.Next());
    }
  }

  lemma FloodOne(c: Config, s: System, t: System, k: nat)
    requires c.Valid() && Flooded(c, s, t, k) && S.MayRead(t.snd) && t.Next() < |c.blocks|
    ensures InRange(c, t) && Step(c, t, SendBlock).data == [Data(t.snd.seqExp, c.blocks[t.Next()], t.Next())]
    ensures Flooded(c, s, Step(c, Step(c, t, SendBlock), LoseData(0)), k + 1)
  {
    hide Slot, S.Oldest, S.Acknowledge, Deliver, TakeAck, R.Indexed;
    assert Without(Step(c, t, SendBlock).data, 0) == [];
  }

  lemma FloodedGives(c: Config, s: System, t: System, k: nat)
    requires Flooded(c, s, t, k)
    ensures InRange(c, t) && t.Next() == s.Next() + k && t.phase == Reading
  {
  }

  lemma {:induction false} Flood(c: Config, past: seq<Turn>, k: nat) returns (turns: seq<Turn>)
    requires c.Valid() && Defined(c, past) && Flooded(c, TurnRun(c, past), TurnRun(c, past), 0)
    requires var s := TurnRun(c, past);
             && s.base <= s.Next() && s.Next() + k <= |c.blocks|
             && (s.Next() + k <= s.base + c.w || s.base % 256 + c.w >= 256)
    ensures Defined(c, turns) && Flooded(c, TurnRun(c, past), TurnRun(c, turns), k)
  {
    hide Flooded, Step, TurnRun, Defined, S.MayRead, S.Oldest;
    if k == 0 {
      turns := past;
    } else {
      turns := Flood(c, past, k - 1);
      var s, t := TurnRun(c, past), TurnRun(c, turns);
      FloodedGives(c, s, t, k - 1);
      FloodGoesOn(c, s, t, k - 1);
      FloodOne(c, s, t, k - 1);
      SenderTurns(c, turns, false);
      OtherTurns(c, turns + [SenderTurn(false)], DropData(0));
      turns := turns + [SenderTurn(false)] + [DropData(0)];
    }
  }
}
