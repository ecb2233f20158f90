/** The turns of the two loops on the bytes that are really sent, and what they have
    to do with the loops and with the turns on packets. */
module WireTurns {
  import opened Bytes
  import opened Common
  import opened PacketSpec
  import opened Datagrams
  import opened Wire
  import S = SenderSpec
  import R = ReceiverSpec
  import P = Protocol
  import T = Turns
  import UnsetPointer

  /** `rest` is what stands in the buffer behind the datagram, `now` the clock. */
  datatype WireTurn =
    | SenderTurn(arrives: bool, rest: seq<byte>, now: word32) | EndTurn(now: word32)
    | ReceiverTurn(rest: seq<byte>, now: word32)
    | DropData(i: nat) | DropAck(i: nat)
    | DisturbData(i: nat, bytes: seq<byte>, at: nat) | DisturbAck(i: nat, bytes: seq<byte>, at: nat)

  function AtFile(c: P.Config, s: State, now: word32): (steps: seq<WireAction>)
    requires InRange(c, s)
    ensures |steps| <= 1
  {
    if !S.MayRead(s.snd) then []
    else if s.snd.seqInd < |c.blocks| then [WireAction.SendBlock(now)]
    else [WireAction.ReadEnd]
  }

  /** What the sender decodes in its turn. */
  function Heard(s: State, arrives: bool, rest: seq<byte>): (d: Decoded)
    ensures d.Packet? ==> d.pkt.WellFormed()
  {
    if arrives && s.acks != [] && |s.acks[0].bytes + rest| == DATAGRAM_SIZE then
      DecodedIsWellFormedIf(s.acks[0].bytes + rest, |s.acks[0].bytes|);
      Decode(s.acks[0].bytes + rest, |s.acks[0].bytes|)
    else
      Refused(ENoHeader)
  }

  function AtSocket(s: State, arrives: bool, rest: seq<byte>): (steps: seq<WireAction>)
    ensures |steps| <= 1
  {
    if arrives && s.acks != [] then [WireAction.DeliverAck(rest)] else []
  }

  function AtTimer(c: P.Config, s: State, arrives: bool, rest: seq<byte>, now: word32): (steps: seq<WireAction>)
    requires InRange(c, s)
    ensures |steps| <= 1
  {
    if Heard(s, arrives, rest).Packet? || AtFile(c, s, now) == [WireAction.SendBlock(now)] then []
    else [WireAction.Resend(now)]
  }

  function AtEnd(c: P.Config, s: State, now: word32): (steps: seq<WireAction>)
    requires InRange(c, s)
    ensures |steps| <= 1
  {
    if AtFile(c, s, now) == [WireAction.ReadEnd] then [WireAction.LeaveLoop] else []
  }

  function Steps(c: P.Config, s: State, t: WireTurn): seq<WireAction>
    requires InRange(c, s)
  {
    match t
    case SenderTurn(arrives, rest, now) =>
      if s.phase != P.Reading then []
      else AtFile(c, s, now) + AtSocket(s, arrives, rest) + AtTimer(c, s, arrives, rest, now) + AtEnd(c, s, now)
    case EndTurn(now) => [WireAction.SendEnd(now)]
    case ReceiverTurn(rest, now) => [WireAction.DeliverData(rest, now)]
    case DropData(i) => [WireAction.LoseData(i)]
    case DropAck(i) => [WireAction.LoseAck(i)]
    case DisturbData(i, bytes, at) => [WireAction.DamageData(i, bytes, at)]
    case DisturbAck(i, bytes, at) => [WireAction.DamageAck(i, bytes, at)]
  }

  ghost function Perform(c: P.Config, s: State, steps: seq<WireAction>): (s': State)
    requires InRange(c, s)
    ensures InRange(c, s')
  {
    if steps == [] then s else Step(c, Perform(c, s, steps[..|steps| - 1]), steps[|steps| - 1])
  }

  ghost function After(c: P.Config, s: State, t: WireTurn): (s': State)
    requires InRange(c, s)
    ensures InRange(c, s')
  {
    Perform(c, s, Steps(c, s, t))
  }

  ghost function TurnRun(c: P.Config, turns: seq<WireTurn>): (s: State)
    requires c.Valid()
    ensures InRange(c, s)
  {
    if turns == [] then Initial(c) else After(c, TurnRun(c, turns[..|turns| - 1]), turns[|turns| - 1])
  }

  // ---------------------------------------------------------------------------
  // Every run of turns is a run of steps

  ghost function Actions(c: P.Config, turns: seq<WireTurn>): seq<WireAction>
    requires c.Valid()
  {
    if turns == [] then []
    else
      var past := turns[..|turns| - 1];
      Actions(c, past) + Steps(c, TurnRun(c, past), turns[|turns| - 1])
  }

  lemma {:induction false} PerformRun(c: P.Config, run: seq<WireAction>, steps: seq<WireAction>)
    requires c.Valid()
    ensures Perform(c, Run(c, run), steps) == Run(c, run + steps)
    decreases |steps|
  {
    hide Step;
    if steps == [] {
      assert run + steps == run;
    } else {
      var n := |steps| - 1;
      PerformRun(c, run, steps[..n]);
      assert (run + steps)[..|run + steps| - 1] == run + steps[..n];
    }
  }

  lemma {:induction false} TurnsAreSteps(c: P.Config, turns: seq<WireTurn>)
    requires c.Valid()
    ensures TurnRun(c, turns) == Run(c, Actions(c, turns))
  {
    hide Step, Steps, Run, Perform;
    if turns == [] {
      NoSteps(c);
    } else {
      var past := turns[..|turns| - 1];
      TurnsAreSteps(c, past);
      PerformRun(c, Actions(c, past), Steps(c, TurnRun(c, past), turns[|turns| - 1]));
    }
  }

  lemma NoSteps(c: P.Config)
    requires c.Valid()
    ensures Run(c, []) == Initial(c)
  {
  }

  lemma {:induction false} PerformConcat(c: P.Config, s: State, p: seq<WireAction>, q: seq<WireAction>)
    requires InRange(c, s)
    ensures Perform(c, s, p + q) == Perform(c, Perform(c, s, p), q)
    decreases |q|
  {
    hide Step;
    if q == [] {
      assert p + q == p;
    } else {
      var n := |q| - 1;
      PerformConcat(c, s, p, q[..n]);
      assert (p + q)[..|p + q| - 1] == p + q[..n];
    }
  }

  /** A part of a turn is one step or none. */
  ghost function Part(c: P.Config, s: State, steps: seq<WireAction>): (s': State)
    requires InRange(c, s) && |steps| <= 1
    ensures InRange(c, s')
  {
    if steps == [] then s else Step(c, s, steps[0])
  }

  lemma PerformPart(c: P.Config, s: State, steps: seq<WireAction>)
    requires InRange(c, s) && |steps| <= 1
    ensures Perform(c, s, steps) == Part(c, s, steps)
  {
    hide Step;
    if steps != [] {
      assert steps[..0] == [];
    }
  }

  lemma SenderTurnIs(c: P.Config, s: State, arrives: bool, rest: seq<byte>, now: word32)
    requires InRange(c, s) && s.phase == P.Reading
    ensures After(c, s, SenderTurn(arrives, rest, now)) ==
            Part(c, Part(c, Part(c, Part(c, s, AtFile(c, s, now)), AtSocket(s, arrives, rest)),
                         AtTimer(c, s, arrives, rest, now)), AtEnd(c, s, now))
  {
    hide Step, Perform, AtFile, AtSocket, AtTimer, AtEnd, Part;
    var p, q := AtFile(c, s, now), AtSocket(s, arrives, rest);
    var r, e := AtTimer(c, s, arrives, rest, now), AtEnd(c, s, now);
    PerformConcat(c, s, p + q + r, e);
    PerformConcat(c, s, p + q, r);
    PerformConcat(c, s, p, q);
    PerformPart(c, s, p);
    PerformPart(c, Part(c, s, p), q);
    PerformPart(c, Part(c, Part(c, s, p), q), r);
    PerformPart(c, Part(c, Part(c, Part(c, s, p), q), r), e);
  }

  lemma OtherTurnIs(c: P.Config, s: State, t: WireTurn)
    requires InRange(c, s) && !t.SenderTurn?
    ensures |Steps(c, s, t)| == 1 && After(c, s, t) == Step(c, s, Steps(c, s, t)[0])
  {
    hide Step, Perform, AtFile, AtSocket, AtTimer, AtEnd;
    PerformPart(c, s, Steps(c, s, t));
  }

  // ---------------------------------------------------------------------------
  // The turns are those of the loops

  function BytesSent<M>(q: seq<Datagram<M>>): seq<seq<byte>> {
    seq(|q|, i requires 0 <= i < |q| => q[i].bytes)
  }

  /** What the file returns to a read. */
  function NextBlock(c: P.Config, s: State): (data: Block)
    requires c.Valid()
    ensures |data| <= MAX_PAYLOAD_SIZE && (data == [] <==> s.snd.seqInd >= |c.blocks|)
  {
    if s.snd.seqInd < |c.blocks| then c.blocks[s.snd.seqInd] else []
  }

  lemma FilePart(c: P.Config, s: State, now: word32)
    requires InRange(c, s) && s.phase == P.Reading && s.snd.seqInd <= |c.blocks|
    ensures var s', atFile, data := Part(c, s, AtFile(c, s, now)), S.MayRead(s.snd), NextBlock(c, s);
            && s' == s.(snd := s'.snd, phase := s'.phase, data := s'.data)
            && s'.snd == (if atFile && data != [] then S.Send(s.snd, data) else s.snd)
            && s'.phase == (if atFile && data == [] then P.LastTurn else P.Reading)
            && BytesSent(s'.data) == BytesSent(s.data) +
                 (if atFile && data != [] then [Encode(DataPacket(s.snd.seqExp, s.snd.window, data, now))] else [])
            && (AtFile(c, s, now) == [WireAction.SendBlock(now)] <==> atFile && data != [])
            && (AtFile(c, s, now) == [WireAction.ReadEnd] <==> atFile && data == [])
  {
    hide Encode, S.Send, S.MayRead, S.InRange, S.Sendable, R.Indexed;
  }

  lemma SocketPart(c: P.Config, s: State, arrives: bool, rest: seq<byte>)
    requires InRange(c, s) && s.phase != P.Ending
    requires arrives && s.acks != [] ==> |s.acks[0].bytes + rest| == DATAGRAM_SIZE
    ensures var s' := Part(c, s, AtSocket(s, arrives, rest));
            && s'.snd == TakeAnswer(s.snd, Heard(s, arrives, rest))
            && s'.phase == s.phase && s'.data == s.data && s'.rcv == s.rcv
            && s'.acks == if arrives && s.acks != [] then s.acks[1..] else s.acks
  {
    hide Decode, S.Send, S.Oldest, S.MayRead, S.Sendable, R.Indexed;
    if !(arrives && s.acks != []) {
      Unmoved(s.snd, Heard(s, arrives, rest));
    } else {
      hide TakeAnswer;
    }
  }

  lemma TimerPart(c: P.Config, s: State, now: word32)
    requires InRange(c, s) && s.phase != P.Ending
    ensures var s', oldest := Step(c, s, WireAction.Resend(now)), S.Oldest(s.snd);
            && s' == s.(data := s'.data)
            && BytesSent(s'.data) == BytesSent(s.data) + if oldest.Some? then [Encode(Again(oldest.value, now))] else []
  {
    hide Encode, S.MayRead, S.Oldest, S.LatestIn, S.InRange, R.Indexed;
  }

  lemma EndPart(c: P.Config, s: State)
    requires InRange(c, s)
    ensures Step(c, s, WireAction.LeaveLoop) == if s.phase == P.LastTurn then s.(phase := P.Ending) else s
  {
    hide S.InRange, R.Indexed, S.Sendable;
  }

  lemma Unmoved(s: S.Sender, d: Decoded)
    requires S.InRange(s) && d.Refused?
    ensures TakeAnswer(s, d) == s
  {
  }

  /** The sender does and sends what `LoopTurn` says, which is what the method that
      models the loop does. */
  lemma SenderTurnIsLoopTurn(c: P.Config, s: State, arrives: bool, rest: seq<byte>, now: word32)
    requires InRange(c, s) && s.phase == P.Reading && s.snd.seqInd <= |c.blocks|
    requires arrives && s.acks != [] ==> |s.acks[0].bytes + rest| == DATAGRAM_SIZE
    ensures var s' := After(c, s, SenderTurn(arrives, rest, now));
            var r := LoopTurn(s.snd, true, NextBlock(c, s), Heard(s, arrives, rest), now);
            && s'.snd == r.snd && s'.rcv == s.rcv && s'.phase == (if r.ended then P.Ending else P.Reading)
            && BytesSent(s'.data) == BytesSent(s.data) + (if r.sent.Some? then [BytesOf(r.sent)] else [])
            && s'.acks == if arrives && s.acks != [] then s.acks[1..] else s.acks
  {
    hide Encode, Decode, S.Send, S.Oldest, S.MayRead, TakeAnswer, Step, AtFile, AtSocket;
    hide Heard, BytesSent, NextBlock, After;
    SenderTurnIs(c, s, arrives, rest, now);
    FilePart(c, s, now);
    var s1 := Part(c, s, AtFile(c, s, now));
    SameAcks(s, s1, arrives, rest);
    SocketPart(c, s1, arrives, rest);
    var s2 := Part(c, s1, AtSocket(s, arrives, rest));
    if Heard(s, arrives, rest).Refused? {
      Unmoved(s1.snd, Heard(s, arrives, rest));
    }
    TimerPart(c, s2, now);
    EndPart(c, Part(c, s2, AtTimer(c, s, arrives, rest, now)));
  }

  lemma SameAcks(s: State, t: State, arrives: bool, rest: seq<byte>)
    requires s.acks == t.acks
    ensures AtSocket(s, arrives, rest) == AtSocket(t, arrives, rest)
    ensures Heard(s, arrives, rest) == Heard(t, arrives, rest)
  {
  }

  /** The receiver's turn is the one of its loop; refusals are not part of the
      closed system. */
  lemma ReceiverTurnIsLoopTurn(c: P.Config, s: State, rest: seq<byte>, now: word32)
    requires InRange(c, s) && !s.rcv.ended && s.data != [] && |s.data[0].bytes + rest| == DATAGRAM_SIZE
    ensures var s', d := After(c, s, ReceiverTurn(rest, now)), Decode(s.data[0].bytes + rest, |s.data[0].bytes|);
            var answer := Answer(s.rcv, d, now);
            && s'.rcv == Receive(s.rcv, d) && s'.snd == s.snd && s'.data == s.data[1..]
            && BytesSent(s'.acks) == BytesSent(s.acks) +
                 if answer.Some? && answer.value.kind == PTYPE_ACK then [BytesOf(answer)] else []
  {
    hide Encode, Decode, Receive, S.InRange, S.Sendable, R.Indexed, Answer;
    OtherTurnIs(c, s, ReceiverTurn(rest, now));
  }

  /** After the loop the sender sends the zero-length packet with the next number. */
  lemma EndTurnIsSendEnd(c: P.Config, s: State, now: word32)
    requires InRange(c, s) && s.phase == P.Ending
    ensures var s' := After(c, s, EndTurn(now));
            && s' == s.(data := s'.data)
            && BytesSent(s'.data) == BytesSent(s.data) + [Encode(DataPacket(s.snd.seqExp, s.snd.window, [], now))]
  {
    hide Encode, S.InRange, S.Sendable, R.Indexed;
    OtherTurnIs(c, s, EndTurn(now));
  }

  // ---------------------------------------------------------------------------
  // And they mean turns on packets

  lemma StepRefines(c: P.Config, s: State, a: WireAction)
    requires WireInv(c, s)
    ensures P.InRange(c, Abstract(s)) && WireInv(c, Step(c, s, a)) && |Meaning(c, s, a)| <= 1
    ensures Abstract(Step(c, s, a)) ==
            if Meaning(c, s, a) == [] then Abstract(s) else P.Step(c, Abstract(s), Meaning(c, s, a)[0])
  {
    Simulate(c, s, a);
    AtMostOne(c, s, a);
    hide WireInv, Step, P.Step, Abstract, Meaning;
  }

  /** The steps that need no datagram. */
  lemma PlainRefines(c: P.Config, s: State, a: WireAction)
    requires WireInv(c, s) && (a.SendBlock? || a.ReadEnd? || a.Resend? || a.LeaveLoop?)
    ensures P.InRange(c, Abstract(s)) && WireInv(c, Step(c, s, a))
    ensures Abstract(Step(c, s, a)) ==
            P.Step(c, Abstract(s), if a.SendBlock? then P.SendBlock else if a.ReadEnd? then P.ReadEnd
                                   else if a.Resend? then P.Resend else P.LeaveLoop)
  {
    hide Step, Intact, S.MayRead, S.Oldest, WireInv;
    StepRefines(c, s, a);
    assert InRange(c, s) by { InvIsInRange(c, s); }
  }

  lemma InvIsInRange(c: P.Config, s: State)
    requires WireInv(c, s)
    ensures InRange(c, s)
  {
  }

  /** Whether an intact acknowledgement arrives. */
  predicate Replies(s: State, arrives: bool, rest: seq<byte>) {
    arrives && s.acks != [] && s.acks[0].intact && |s.acks[0].bytes + rest| == DATAGRAM_SIZE
  }

  lemma SocketRefines(c: P.Config, s: State, arrives: bool, rest: seq<byte>)
    requires WireInv(c, s) && s.phase != P.Ending
    ensures InRange(c, s) && P.InRange(c, Abstract(s))
    ensures Heard(s, arrives, rest).Packet? <==> Replies(s, arrives, rest)
    ensures Replies(s, arrives, rest) ==> Abstract(s).acks != []
    ensures var s' := Part(c, s, AtSocket(s, arrives, rest));
            && WireInv(c, s')
            && Abstract(s') == if Replies(s, arrives, rest) then P.Step(c, Abstract(s), P.DeliverAck) else Abstract(s)
  {
    hide Step, P.Step, Decode, Encode, Intact;
    AbstractInRange(c, s);
    if arrives && s.acks != [] {
      StepRefines(c, s, WireAction.DeliverAck(rest));
      IntactTail(s.acks);
      if |s.acks[0].bytes + rest| == DATAGRAM_SIZE {
        DecodeConsistent(s.acks[0], rest);
      }
    }
  }

  lemma SenderTurnRefines(c: P.Config, s: State, arrives: bool, rest: seq<byte>, now: word32)
    requires WireInv(c, s) && s.phase == P.Reading
    ensures InRange(c, s) && P.InRange(c, Abstract(s))
    ensures var s' := After(c, s, SenderTurn(arrives, rest, now));
            WireInv(c, s') && Abstract(s') == T.After(c, Abstract(s), T.SenderTurn(Replies(s, arrives, rest)))
  {
    hide WireInv, Step, P.Step, Abstract, Heard, Replies, S.MayRead, Intact, Perform, T.Perform;
    InvIsInRange(c, s);
    AbstractKeeps(c, s);
    SenderTurnIs(c, s, arrives, rest, now);
    var replies := Replies(s, arrives, rest);
    var s1 := Part(c, s, AtFile(c, s, now));
    assert WireInv(c, s1) && s1.phase != P.Ending && s1.acks == s.acks &&
           Abstract(s1) == FileStep(c, Abstract(s)) by { FileRefines(c, s, now); }
    SameAcks(s, s1, arrives, rest);
    assert Replies(s1, arrives, rest) == replies by { SameReplies(s, s1, arrives, rest); }
    SocketRefines(c, s1, arrives, rest);
    var s2 := Part(c, s1, AtSocket(s, arrives, rest));
    PlainRefines(c, s2, WireAction.Resend(now));
    var s3 := Part(c, s2, AtTimer(c, s, arrives, rest, now));
    PlainRefines(c, s3, WireAction.LeaveLoop);
    SocketRefines(c, s, arrives, rest);
    T.SenderTurnIs(c, Abstract(s), replies);
  }

  lemma AbstractKeeps(c: P.Config, s: State)
    requires WireInv(c, s)
    ensures P.InRange(c, Abstract(s)) && Abstract(s).snd == s.snd && Abstract(s).phase == s.phase
    ensures Abstract(s).Next() == s.snd.seqInd
  {
    AbstractInRange(c, s);
  }

  lemma SameReplies(s: State, t: State, arrives: bool, rest: seq<byte>)
    requires s.acks == t.acks
    ensures Replies(s, arrives, rest) == Replies(t, arrives, rest)
  {
  }

  /** What the packet-level sender does at the file. */
  function FileStep(c: P.Config, s: P.System): P.System
    requires P.InRange(c, s)
  {
    if !S.MayRead(s.snd) then s else P.Step(c, s, if s.Next() < |c.blocks| then P.SendBlock else P.ReadEnd)
  }

  lemma FileRefines(c: P.Config, s: State, now: word32)
    requires WireInv(c, s) && s.phase == P.Reading
    ensures InRange(c, s) && P.InRange(c, Abstract(s))
    ensures var s' := Part(c, s, AtFile(c, s, now));
            WireInv(c, s') && s'.phase != P.Ending && s'.acks == s.acks && Abstract(s') == FileStep(c, Abstract(s))
  {
    hide WireInv, P.Step, Intact, S.MayRead, Encode, S.Oldest;
    InvIsInRange(c, s);
    AbstractKeeps(c, s);
    if S.MayRead(s.snd) {
      PlainRefines(c, s, AtFile(c, s, now)[0]);
    }
  }

  function AsTurn(a: P.Action): T.Turn
    requires a.SendEnd? || a.DeliverData? || a.LoseData? || a.LoseAck?
  {
    match a
    case SendEnd => T.EndTurn
    case DeliverData => T.ReceiverTurn
    case LoseData(i) => T.DropData(i)
    case LoseAck(i) => T.DropAck(i)
  }

  /** The turn on packets that a turn on the wire amounts to: a datagram whose
      damage is noticed does not arrive. */
  ghost function TurnMeaning(c: P.Config, s: State, t: WireTurn): seq<T.Turn>
    requires InRange(c, s)
  {
    if t.SenderTurn? then [T.SenderTurn(Replies(s, t.arrives, t.rest))]
    else
      var meaning := Meaning(c, s, Steps(c, s, t)[0]);
      if meaning == [] then [] else [AsTurn(meaning[0])]
  }

  lemma TurnRefines(c: P.Config, s: State, t: WireTurn)
    requires WireInv(c, s)
    ensures InRange(c, s) && P.InRange(c, Abstract(s)) && |TurnMeaning(c, s, t)| <= 1
    ensures var s', meaning := After(c, s, t), TurnMeaning(c, s, t);
            && WireInv(c, s')
            && Abstract(s') == if meaning == [] then Abstract(s) else T.After(c, Abstract(s), meaning[0])
  {
    hide WireInv, Step, P.Step, Heard, Replies, Intact, Perform, T.Perform, Place, Damaged;
    InvIsInRange(c, s);
    AbstractKeeps(c, s);
    if !t.SenderTurn? {
      OtherTurnIs(c, s, t);
      StepRefines(c, s, Steps(c, s, t)[0]);
      if TurnMeaning(c, s, t) != [] {
        T.OtherTurnIs(c, Abstract(s), TurnMeaning(c, s, t)[0]);
      }
    } else if s.phase == P.Reading {
      SenderTurnRefines(c, s, t.arrives, t.rest, t.now);
    } else {
      NoTurn(c, s, t);
    }
  }

  lemma NoTurn(c: P.Config, s: State, t: WireTurn)
    requires WireInv(c, s) && t.SenderTurn? && s.phase != P.Reading
    ensures InRange(c, s) && P.InRange(c, Abstract(s)) && After(c, s, t) == s
    ensures T.After(c, Abstract(s), T.SenderTurn(Replies(s, t.arrives, t.rest))) == Abstract(s)
  {
    hide Replies;
    InvIsInRange(c, s);
    AbstractKeeps(c, s);
  }

  /** The turns on packets that a run of turns on the wire amounts to. */
  ghost function TurnsMeant(c: P.Config, turns: seq<WireTurn>): seq<T.Turn>
    requires c.Valid()
  {
    if turns == [] then []
    else
      var past := turns[..|turns| - 1];
      TurnsMeant(c, past) + TurnMeaning(c, TurnRun(c, past), turns[|turns| - 1])
  }

  lemma {:induction false} TurnRunRefines(c: P.Config, turns: seq<WireTurn>)
    requires c.Valid()
    ensures WireInv(c, TurnRun(c, turns))
    ensures Abstract(TurnRun(c, turns)) == T.TurnRun(c, TurnsMeant(c, turns))
  {
    hide WireInv, After, T.After, Abstract, TurnMeaning;
    if turns == [] {
      InitiallyRefines(c);
    } else {
      var past, t := turns[..|turns| - 1], turns[|turns| - 1];
      TurnRunRefines(c, past);
      TurnRefines(c, TurnRun(c, past), t);
      var meaning := TurnMeaning(c, TurnRun(c, past), t);
      if meaning == [] {
        assert TurnsMeant(c, turns) == TurnsMeant(c, past);
      } else {
        assert meaning == [meaning[0]];
        T.TurnExtend(c, TurnsMeant(c, past), meaning[0]);
      }
    }
  }

  /** The sender never reads more blocks than the file has. */
  lemma NeverPastTheEnd(c: P.Config, turns: seq<WireTurn>)
    requires c.Valid()
    ensures TurnRun(c, turns).snd.seqInd <= |c.blocks|
  {
    hide S.KeepsLatest, S.RestEmpty, TurnRun, T.TurnRun, S.Oldest;
    TurnRunRefines(c, turns);
    UnsetPointer.OldestMissing(c, TurnsMeant(c, turns));
  }

  // ---------------------------------------------------------------------------
  // Unset pointers

  /** The turn of the loop reads a pointer that was not set. */
  predicate ReadsUnset(c: P.Config, s: State, t: WireTurn)
    requires InRange(c, s)
  {
    t.SenderTurn? && s.phase == P.Reading &&
    LoopTurn(s.snd, true, NextBlock(c, s), Heard(s, t.arrives, t.rest), t.now).unset
  }

  ghost predicate Defined(c: P.Config, turns: seq<WireTurn>)
    requires c.Valid()
  {
    turns == [] ||
    var past := turns[..|turns| - 1];
    Defined(c, past) && !ReadsUnset(c, TurnRun(c, past), turns[|turns| - 1])
  }

  lemma UnsetRefines(c: P.Config, s: State, t: WireTurn)
    requires WireInv(c, s)
    ensures InRange(c, s) && P.InRange(c, Abstract(s))
    ensures ReadsUnset(c, s, t) <==>
            TurnMeaning(c, s, t) != [] && T.ReadsUnset(c, Abstract(s), TurnMeaning(c, s, t)[0])
  {
    hide WireInv, Heard, Replies, S.MayRead, S.Oldest, Intact, Meaning;
    InvIsInRange(c, s);
    AbstractKeeps(c, s);
    if t.SenderTurn? && s.phase == P.Reading {
      SocketRefines(c, s, t.arrives, t.rest);
    }
  }

  lemma {:induction false} DefinedRefines(c: P.Config, turns: seq<WireTurn>)
    requires c.Valid()
    ensures Defined(c, turns) <==> T.Defined(c, TurnsMeant(c, turns))
  {
    hide WireInv, T.TurnRun, TurnRun, Abstract, TurnMeaning, ReadsUnset, T.ReadsUnset;
    if turns != [] {
      var past, t := turns[..|turns| - 1], turns[|turns| - 1];
      DefinedRefines(c, past);
      TurnRunRefines(c, past);
      TurnRefines(c, TurnRun(c, past), t);
      UnsetRefines(c, TurnRun(c, past), t);
      var meaning := TurnMeaning(c, TurnRun(c, past), t);
      if meaning == [] {
        assert TurnsMeant(c, turns) == TurnsMeant(c, past);
      } else {
        assert meaning == [meaning[0]];
        T.TurnExtend(c, TurnsMeant(c, past), meaning[0]);
      }
    }
  }
}
