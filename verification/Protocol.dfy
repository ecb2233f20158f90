/** The sender, the receiver and the two channels between them as one system, and
    what holds in every state it can reach. */
module Protocol {
  import opened Bytes
  import opened Common
  import opened Ring
  import S = SenderSpec
  import R = ReceiverSpec

  /** A file cut into blocks, and the window the receiver announces. */
  datatype Config = Config(blocks: seq<Block>, w: nat)
  {
    predicate Valid() {
      1 <= w <= MAX_WINDOW_SIZE && forall i :: 0 <= i < |blocks| ==> 1 <= |blocks[i]| <= MAX_PAYLOAD_SIZE
    }
  }

  /** `origin` is the absolute number of the block; no step depends on it. */
  datatype Message = Data(num: byte, block: Block, origin: nat) | End(num: byte)

  datatype Ack = Ack(num: byte, window: nat, origin: nat)

  /** The data loop, its last turn after the end of the file was read, and the
      loop that sends the zero-length packet. */
  datatype Phase = Reading | LastTurn | Ending

  /** Both channels keep their order. `base` counts the acknowledged blocks
      without wrapping; no step depends on it. */
  datatype System = System(snd: S.Sender, phase: Phase, rcv: R.Receiver, data: seq<Message>, acks: seq<Ack>, base: nat)
  {
    function Next(): nat {
      snd.seqInd
    }

    function Written(): nat {
      |rcv.out|
    }
  }

  datatype Action =
    | SendBlock | ReadEnd | LeaveLoop | SendEnd
    | Resend
    | LoseData(at: nat) | LoseAck(at: nat)
    | DeliverData | DeliverAck

  function Initial(c: Config): System {
    System(S.INITIAL, Reading, R.Receiver(Nones(c.w), 0, 0, [], false), [], [], 0)
  }

  /** The ranges of the variables that the steps rely on. */
  predicate InRange(c: Config, s: System) {
    && c.Valid() && S.InRange(s.snd) && R.Indexed(s.rcv)
    && forall i :: 0 <= i < |s.acks| ==> s.acks[i].window <= MAX_WINDOW_SIZE
  }

  predicate Enabled(c: Config, s: System, a: Action)
    requires InRange(c, s)
  {
    match a
    case SendBlock => s.phase == Reading && S.MayRead(s.snd) && s.snd.seqInd < |c.blocks|
    case ReadEnd => s.phase == Reading && S.MayRead(s.snd) && s.snd.seqInd == |c.blocks|
    case LeaveLoop => s.phase == LastTurn
    case SendEnd => s.phase == Ending
    case Resend => s.phase != Ending && S.Oldest(s.snd).Some?
    case LoseData(i) => i < |s.data|
    case LoseAck(i) => i < |s.acks|
    case DeliverData => !s.rcv.ended && s.data != []
    case DeliverAck => s.phase != Ending && s.acks != []
  }

  function Without<T>(q: seq<T>, i: nat): (r: seq<T>)
    requires i < |q|
    ensures |r| == |q| - 1
    ensures forall j :: 0 <= j < |r| ==> r[j] == q[if j < i then j else j + 1]
  {
    q[..i] + q[i + 1..]
  }

  /** One step; a step that is not enabled leaves everything as it is. */
  function Step(c: Config, s: System, a: Action): (s': System)
    requires InRange(c, s)
    ensures InRange(c, s')
  {
    if !Enabled(c, s, a) then s else
    match a
    case SendBlock =>
      var block := c.blocks[s.snd.seqInd];
      s.(snd := S.Send(s.snd, block), data := s.data + [Data(s.snd.seqExp, block, s.snd.seqInd)])
    case ReadEnd => s.(phase := LastTurn)
    case LeaveLoop => s.(phase := Ending)
    case SendEnd => s.(data := s.data + [End(s.snd.seqExp)])
    case Resend =>
      var kept := S.Oldest(s.snd).value;
      s.(data := s.data + [Data(kept.num, kept.block, S.LatestIn(s.snd.smallInd, s.snd.seqInd, s.snd.window))])
    case LoseData(i) => s.(data := Without(s.data, i))
    case LoseAck(i) => s.(acks := Without(s.acks, i))
    case DeliverData => Deliver(c, s.(data := s.data[1..]), s.data[0])
    case DeliverAck => TakeAck(s.(acks := s.acks[1..]), s.acks[0])
  }

  /** A block is stored, the ring is drained and the next expected number is
      acknowledged; the zero-length packet ends the receiver's loop. */
  function Deliver(c: Config, s: System, m: Message): (s': System)
    requires InRange(c, s)
    ensures InRange(c, s')
  {
    match m
    case Data(num, block, _) =>
      var rcv := R.Receive(s.rcv, num, block);
      s.(rcv := rcv, acks := s.acks + [Ack(rcv.seqExp, c.w, |rcv.out|)])
    case End(_) => s.(rcv := s.rcv.(ended := true))
  }

  function TakeAck(s: System, k: Ack): (s': System)
    requires S.InRange(s.snd) && k.window <= MAX_WINDOW_SIZE
    ensures s' == s.(snd := s'.snd, base := s'.base) && S.InRange(s'.snd)
  {
    s.(snd := S.Acknowledge(s.snd, k.num, k.window), base := s.base + Distance(s.snd.smallSeq, k.num))
  }

  /** The state after a run of steps. */
  function Run(c: Config, run: seq<Action>): (s: System)
    requires c.Valid()
    ensures InRange(c, s)
  {
    if run == [] then Initial(c) else Step(c, Run(c, run[..|run| - 1]), run[|run| - 1])
  }

  lemma RunExtend(c: Config, run: seq<Action>, a: Action)
    requires c.Valid()
    ensures Run(c, run + [a]) == Step(c, Run(c, run), a)
  {
    assert (run + [a])[..|run|] == run;
  }

  // ---------------------------------------------------------------------------
  // The invariant

  predicate ReceiverInv(c: Config, s: System) {
    && R.Valid(s.rcv) && |s.rcv.ring| == c.w && s.rcv.ring[s.rcv.index].None?
    && s.Written() <= s.Next() <= |c.blocks| && s.rcv.out == c.blocks[..s.Written()]
    && PendingInv(c, s)
  }

  predicate PendingInv(c: Config, s: System)
    requires |s.rcv.ring| > 0
  {
    forall a :: a in R.Pending(s.rcv) ==> a < s.Next() && a < |c.blocks| && R.Pending(s.rcv)[a] == c.blocks[a]
  }

  /** What a data packet in flight says. */
  predicate Truthful(c: Config, s: System, m: Message) {
    m.Data? ==> m.origin < s.Next() && m.origin < |c.blocks| && m.num == m.origin % 256 && m.block == c.blocks[m.origin]
  }

  /** Everything the receiver holds is less than a window ahead of a packet that
      is still in flight. */
  predicate NotStale(c: Config, s: System, m: Message)
    requires |s.rcv.ring| > 0
  {
    m.Data? ==> s.Written() <= m.origin + c.w && forall a :: a in R.Pending(s.rcv) ==> a < m.origin + c.w
  }

  predicate DataInv(c: Config, s: System)
    requires |s.rcv.ring| > 0
  {
    && (forall i :: 0 <= i < |s.data| ==> Truthful(c, s, s.data[i]) && NotStale(c, s, s.data[i]))
    && Overtaking(s.data, c.w)
  }

  /** A packet is never a window or more ahead of one sent after it. */
  predicate Overtaking(data: seq<Message>, w: nat) {
    forall i, j :: 0 <= i < j < |data| && data[i].Data? && data[j].Data? ==> data[i].origin < data[j].origin + w
  }

  /** The part of the invariant in which acknowledgements do not occur. */
  predicate Core(c: Config, s: System) {
    && InRange(c, s)
    && S.RingInv(s.snd, c.blocks, c.w)
    && ReceiverInv(c, s) && DataInv(c, s)
    && s.Next() <= s.Written() + 256 && (s.Written() == 0 ==> s.Next() <= 1)
  }

  predicate AckInv(c: Config, s: System) {
    && (forall i :: 0 <= i < |s.acks| ==> AckOk(c, s, s.acks[i]))
    && (forall i, j :: 0 <= i < j < |s.acks| ==> s.acks[i].origin <= s.acks[j].origin)
  }

  predicate AckOk(c: Config, s: System, k: Ack) {
    k.num == k.origin % 256 && k.window == c.w && s.base <= k.origin <= s.Written() && 1 <= k.origin
  }

  /** No two blocks that could be confused are ever under way together. */
  predicate Unambiguous(s: System) {
    s.base <= s.Written() && s.Next() <= s.base + 256
  }

  predicate Inv(c: Config, s: System) {
    && InRange(c, s)
    && S.RingInv(s.snd, c.blocks, c.w)
    && ReceiverInv(c, s) && DataInv(c, s) && AckInv(c, s)
    && Unambiguous(s)
    && (s.base == 0 ==> s.snd.window == 1 && s.Next() <= 1)
    && s.snd.smallSeq == s.base % 256 && s.snd.smallInd == Slot(s.base, s.snd.window)
  }

  lemma InvInitially(c: Config)
    requires c.Valid()
    ensures Inv(c, Initial(c))
  {
    S.RingInvInitially(c.blocks, c.w);
    SlotSmall(0, c.w);
    assert R.Pending(Initial(c).rcv) == map[];
  }

  lemma InvIsCore(c: Config, s: System)
    requires Inv(c, s)
    ensures Core(c, s)
  {
    hide Slot, S.RingInv, ReceiverInv, DataInv, AckInv;
  }

  lemma CoreSendBlock(c: Config, s: System)
    requires Core(c, s) && Enabled(c, s, SendBlock)
    requires s.Next() < s.Written() + 256 && (s.Written() == 0 ==> s.Next() == 0)
    ensures Core(c, Step(c, s, SendBlock))
  {
    hide Slot, S.RingInv, S.Send, R.Pending, R.Valid;
    S.RingInvSend(s.snd, c.blocks, c.w);
    RingInvGives(c, s);
    SendGives(s.snd, c.blocks[s.snd.seqInd]);
    RingInvGives(c, Step(c, s, SendBlock));
    PendingBelow(c, s);
  }

  lemma InvSendBlock(c: Config, s: System)
    requires Inv(c, s) && Enabled(c, s, SendBlock) && s.Next() < s.base + 256
    ensures Inv(c, Step(c, s, SendBlock))
  {
    hide Slot, S.RingInv, S.Send, ReceiverInv, DataInv;
    InvIsCore(c, s);
    RingInvGives(c, s);
    SendGives(s.snd, c.blocks[s.snd.seqInd]);
    CoreSendBlock(c, s);
  }

  lemma SendGives(s: S.Sender, block: Block)
    requires S.InRange(s)
    ensures var s' := S.Send(s, block);
            s'.seqInd == s.seqInd + 1 && s'.window == s.window && s'.smallSeq == s.smallSeq && s'.smallInd == s.smallInd
  {
  }

  lemma RingInvGives(c: Config, s: System)
    requires S.RingInv(s.snd, c.blocks, c.w)
    ensures s.snd.seqExp == s.Next() % 256 && s.Next() <= |c.blocks| && s.snd.window <= c.w
    ensures s.snd.started == (s.Next() > 0)
    ensures s.snd.window != c.w ==> s.snd.window == 1 && s.snd.smallSeq == 0 && s.Next() <= 1
  {
  }

  lemma PendingBelow(c: Config, s: System)
    requires ReceiverInv(c, s)
    ensures forall a :: a in R.Pending(s.rcv) ==> s.Written() < a < s.Written() + c.w && a < s.Next()
  {
  }

  lemma CoreResend(c: Config, s: System)
    requires Core(c, s) && Enabled(c, s, Resend)
    ensures Core(c, Step(c, s, Resend))
  {
    hide Slot, S.RingInv, R.Pending, R.Valid, S.Oldest, S.LatestIn;
    S.OldestIs(s.snd, c.blocks, c.w);
    RingInvGives(c, s);
    PendingBelow(c, s);
  }

  lemma InvResend(c: Config, s: System)
    requires Inv(c, s) && Enabled(c, s, Resend)
    ensures Inv(c, Step(c, s, Resend))
  {
    hide Slot, S.RingInv, ReceiverInv, DataInv, S.Oldest, S.LatestIn;
    InvIsCore(c, s);
    CoreResend(c, s);
  }

  lemma CoreLose(c: Config, s: System, a: Action)
    requires Core(c, s) && Enabled(c, s, a) && (a.LoseData? || a.LoseAck?)
    ensures Core(c, Step(c, s, a))
  {
    hide Slot, S.RingInv, R.Pending, R.Valid;
  }

  lemma InvLose(c: Config, s: System, a: Action)
    requires Inv(c, s) && Enabled(c, s, a) && (a.LoseData? || a.LoseAck?)
    ensures Inv(c, Step(c, s, a))
  {
    hide Slot, S.RingInv, ReceiverInv, DataInv;
    InvIsCore(c, s);
    CoreLose(c, s, a);
  }

  /** After a delivery everything written or held was written or held before, or
      is the block delivered. */
  lemma ReceiveAdds(r: R.Receiver, a: nat, x: Block)
    requires R.Valid(r) && r.ring[r.index].None? && |r.out| + |r.ring| <= a + 256 && a < |r.out| + 256
    ensures var r', n := R.Receive(r, a % 256, x), |r.out|;
            && R.Valid(r') && |r'.ring| == |r.ring| && r'.ended == r.ended && r'.ring[r'.index].None?
            && n <= |r'.out| && r'.out[..n] == r.out
            && (|r'.out| == n || |r'.out| == a + 1 || |r'.out| - 1 in R.Pending(r))
            && (forall b :: n <= b < |r'.out| ==>
                  (b == a && r'.out[b] == x) || (b in R.Pending(r) && r'.out[b] == R.Pending(r)[b]))
            && (forall b :: b in R.Pending(r') ==>
                  (b == a && R.Pending(r')[b] == x) || (b in R.Pending(r) && R.Pending(r')[b] == R.Pending(r)[b]))
  {
    hide Slot, R.Receive, R.Pending, R.WrapPoint;
    R.ReceiveRefines(r, a, x);
    var u, r' := R.Abstract(r), R.Receive(r, a % 256, x);
    var v := u.(pending := u.pending[a := x]);
    R.IdealDrainExact(v);
    if R.Abstract(r') != u {
      forall b | |r.out| <= b < |r'.out|
        ensures (b == a && r'.out[b] == x) || (b in R.Pending(r) && r'.out[b] == R.Pending(r)[b])
      {
        assert b in v.pending && r'.out[b] == v.pending[b];
      }
      if |r.out| < |r'.out| {
        assert |r'.out| - 1 in v.pending;
      }
    }
  }

  lemma CoreDeliverData(c: Config, s: System)
    requires Core(c, s) && Enabled(c, s, DeliverData)
    ensures Core(c, Step(c, s, DeliverData)) && s.Written() <= Step(c, s, DeliverData).Written()
  {
    hide Slot, S.RingInv, R.Pending, R.Valid, R.Receive, ReceiverInv, DataInv;
    if s.data[0].Data? {
      DeliverReceiverInv(c, s);
      DeliverDataInv(c, s);
    } else {
      EndCore(c, s);
    }
  }

  lemma EndCore(c: Config, s: System)
    requires Core(c, s) && Enabled(c, s, DeliverData) && s.data[0].End?
    ensures Core(c, Step(c, s, DeliverData))
  {
    hide Slot, S.RingInv, R.Pending, R.Valid, R.Receive;
    EndPending(s.rcv);
  }

  lemma InvDeliverData(c: Config, s: System)
    requires Inv(c, s) && Enabled(c, s, DeliverData)
    ensures Inv(c, Step(c, s, DeliverData))
  {
    hide Slot, S.RingInv, R.Receive, ReceiverInv, DataInv;
    InvIsCore(c, s);
    CoreDeliverData(c, s);
    if s.data[0].Data? {
      DeliverAckInv(c, s);
    }
  }

  lemma EndPending(r: R.Receiver)
    requires R.Valid(r)
    ensures R.Valid(r.(ended := true)) && R.Pending(r.(ended := true)) == R.Pending(r)
  {
  }

  /** A packet that arrives less than 256 blocks late, less a window, is taken for
      what it is. */
  lemma ReceiveKeeps(c: Config, s: System, m: Message)
    requires ReceiverInv(c, s) && s.Next() <= s.Written() + 256
    requires m.Data? && Truthful(c, s, m) && s.Written() + c.w <= m.origin + 256
    ensures var s' := s.(rcv := R.Receive(s.rcv, m.num, m.block)); ReceiverInv(c, s') && s.Written() <= s'.Written()
  {
    assert R.Indexed(s.rcv);
    hide Slot, R.Pending, R.Valid, R.Receive;
    ReceiveAdds(s.rcv, m.origin, m.block);
    var s' := s.(rcv := R.Receive(s.rcv, m.num, m.block));
    forall b | 0 <= b < s'.Written()
      ensures s'.rcv.out[b] == c.blocks[b]
    {
      if b < s.Written() {
        assert s'.rcv.out[b] == s'.rcv.out[..s.Written()][b];
      }
    }
  }

  lemma DeliverReceiverInv(c: Config, s: System)
    requires Core(c, s) && Enabled(c, s, DeliverData) && s.data[0].Data?
    ensures ReceiverInv(c, Step(c, s, DeliverData)) && s.Written() <= Step(c, s, DeliverData).Written()
  {
    assert Truthful(c, s, s.data[0]) && NotStale(c, s, s.data[0]) by { DataInvAt(c, s, 0); }
    hide Slot, S.RingInv, R.Pending, R.Valid, R.Receive, DataInv;
    ReceiveKeeps(c, s, s.data[0]);
  }

  lemma DataInvAt(c: Config, s: System, i: nat)
    requires |s.rcv.ring| > 0 && DataInv(c, s) && i < |s.data|
    ensures Truthful(c, s, s.data[i]) && NotStale(c, s, s.data[i])
  {
  }

  lemma DeliverDataInv(c: Config, s: System)
    requires Core(c, s) && Enabled(c, s, DeliverData) && s.data[0].Data?
    ensures var s' := Step(c, s, DeliverData); |s'.rcv.ring| > 0 && DataInv(c, s')
  {
    hide Slot, S.RingInv, R.Pending, R.Valid, R.Receive;
    var s' := Step(c, s, DeliverData);
    RingInvGives(c, s);
    assert Truthful(c, s, s.data[0]) && NotStale(c, s, s.data[0]);
    ReceiveAdds(s.rcv, s.data[0].origin, s.data[0].block);
    forall i | 0 <= i < |s'.data|
      ensures Truthful(c, s', s'.data[i]) && NotStale(c, s', s'.data[i])
    {
      assert s'.data[i] == s.data[i + 1];
      DataInvAt(c, s, i + 1);
      if s.data[i + 1].Data? {
        assert s.data[0].origin < s.data[i + 1].origin + c.w;
      }
    }
  }

  lemma DeliverAckInv(c: Config, s: System)
    requires Inv(c, s) && Enabled(c, s, DeliverData) && s.data[0].Data?
    requires s.Written() <= Step(c, s, DeliverData).Written()
    requires ReceiverInv(c, Step(c, s, DeliverData))
    ensures AckInv(c, Step(c, s, DeliverData))
  {
    hide Slot, S.RingInv, R.Pending, R.Receive, DataInv;
    var s' := Step(c, s, DeliverData);
    InvIsCore(c, s);
    FirstAckCounts(c, s);
    assert s'.acks == s.acks + [Ack(s'.rcv.seqExp, c.w, s'.Written())];
    assert forall i :: 0 <= i < |s.acks| ==> AckOk(c, s, s.acks[i]);
  }

  /** No acknowledgement is sent before the first block was written. */
  lemma FirstAckCounts(c: Config, s: System)
    requires Core(c, s) && Enabled(c, s, DeliverData) && s.data[0].Data?
    ensures Step(c, s, DeliverData).Written() > 0
  {
    hide Slot, S.RingInv, R.Pending, R.Receive;
    assert Truthful(c, s, s.data[0]);
    var m := s.data[0];
    ReceiveAdds(s.rcv, m.origin, m.block);
    if s.Written() == 0 {
      NextIsWritten(s.rcv, m.block);
    }
  }

  /** The block the receiver waits for is always written. */
  lemma NextIsWritten(r: R.Receiver, x: Block)
    requires R.Valid(r) && r.ring[r.index].None?
    ensures |R.Receive(r, |r.out| % 256, x).out| > |r.out|
  {
    hide Slot, R.Receive, R.Pending;
    R.ReceiveRefines(r, |r.out|, x);
    var u := R.Abstract(r);
    R.IdealDrainExact(u.(pending := u.pending[|r.out| := x]));
  }

  lemma CoreGives(c: Config, s: System)
    requires Core(c, s)
    ensures InRange(c, s) && s.Written() <= s.Next() <= |c.blocks| && s.snd.started == (s.Next() > 0)
  {
    hide S.KeepsLatest, S.RestEmpty;
  }

  lemma CoreAcks(c: Config, s: System, acks: seq<Ack>)
    requires Core(c, s) && forall i :: 0 <= i < |acks| ==> acks[i].window <= MAX_WINDOW_SIZE
    ensures Core(c, s.(acks := acks))
  {
    hide Slot, S.RingInv, R.Pending, R.Valid;
  }

  /** Any acknowledgement at all leaves this part alone. */
  lemma CoreTakeAck(c: Config, s: System, k: Ack)
    requires Core(c, s) && s.snd.started && k.window == c.w
    ensures Core(c, TakeAck(s, k))
    ensures var s' := TakeAck(s, k); s'.Next() == s.Next() && s'.snd.window == c.w && s'.snd.smallSeq == k.num
  {
    hide Slot, S.RingInv, R.Pending, R.Valid;
    S.RingInvAcknowledge(s.snd, c.blocks, c.w, k.num);
    RingInvGives(c, s);
  }

  lemma InvDeliverAck(c: Config, s: System)
    requires Inv(c, s) && Enabled(c, s, DeliverAck)
    ensures Inv(c, Step(c, s, DeliverAck))
  {
    hide Slot, S.RingInv, ReceiverInv, DataInv, S.Acknowledge;
    var k := s.acks[0];
    assert AckOk(c, s, k);
    InvIsCore(c, s);
    CoreGives(c, s);
    RingInvGives(c, s);
    SlideMovesBase(c, s, k);
    CoreAcks(c, s, s.acks[1..]);
    CoreTakeAck(c, s.(acks := s.acks[1..]), k);
    var s' := Step(c, s, DeliverAck);
    assert forall i :: 0 <= i < |s'.acks| ==>
      s'.acks[i] == s.acks[i + 1] && AckOk(c, s, s.acks[i + 1]) && k.origin <= s.acks[i + 1].origin;
  }

  lemma SlideMovesBase(c: Config, s: System, k: Ack)
    requires Inv(c, s) && AckOk(c, s, k)
    ensures var t, s' := S.Acknowledge(s.snd, k.num, k.window), TakeAck(s, k);
            && s'.snd == t && t.seqInd == s.snd.seqInd && t.window == c.w
            && s'.base == (if k.origin < s.base + 256 then k.origin else s.base)
            && t.smallSeq == s'.base % 256 && t.smallInd == Slot(s'.base, c.w)
  {
    hide S.RingInv, R.Pending, R.Valid, R.Indexed, DataInv, Slot, AckInv;
    RingInvGives(c, s);
    SlideMoves(s.snd, s.base, k.origin, c.w);
  }

  /** The loop of `adapt_buffer` moves the absolute base to the acknowledged
      block `k`, and both wrapped positions with it. */
  lemma SlideMoves(snd: S.Sender, base: nat, k: nat, w: nat)
    requires S.InRange(snd) && snd.window <= w <= MAX_WINDOW_SIZE && (snd.window == w || (snd.window == 1 && base == 0))
    requires snd.smallSeq == base % 256 && snd.smallInd == Slot(base, snd.window)
    requires base <= k <= base + 256
    ensures var t, base' := S.Acknowledge(snd, k % 256, w), if k < base + 256 then k else base;
            && t.window == w && t.seqInd == snd.seqInd
            && base' == base + Distance(snd.smallSeq, k % 256)
            && t.smallSeq == base' % 256 && t.smallInd == Slot(base', w)
  {
    hide Slot, Distance;
    DistanceToAck(base, k);
    SlotAdd(base, Distance(snd.smallSeq, k % 256), w);
    SlotSmall(0, 1);
    SlotSmall(0, w);
  }

  /** The distance is circular, so an acknowledgement `k` sets the base to `k` if
      and only if it is not older than the base: one that was overtaken moves the
      base a whole turn too far. */
  lemma AckMovesBaseIff(snd: S.Sender, base: nat, k: nat)
    requires snd.smallSeq == base % 256 && base < k + 256 && k < base + 256
    ensures base + Distance(snd.smallSeq, k % 256) == k <==> base <= k
    ensures k < base ==> base + Distance(snd.smallSeq, k % 256) == k + 256
  {
  }

  lemma DistanceToAck(base: nat, k: nat)
    requires base <= k <= base + 256
    ensures Distance(base % 256, k % 256) == if k < base + 256 then k - base else 0
  {
  }
}
