/** The turns of the two loops. A turn of the sender is up to three steps of the
    system in the order of its code: at the file, at the socket, at the timer. The
    file is a regular one, always ready to be read. */
module Turns {
  import opened Protocol
  import S = SenderSpec

  /** `arrives` tells whether the first acknowledgement under way, if there is one,
      has reached the sender by the time of its turn. */
  datatype Turn =
    | SenderTurn(arrives: bool) | EndTurn
    | ReceiverTurn
    | DropData(at: nat) | DropAck(at: nat)

  function AtFile(c: Config, s: System): seq<Action>
    requires InRange(c, s)
  {
    if !S.MayRead(s.snd) then [] else if s.Next() < |c.blocks| then [SendBlock] else [ReadEnd]
  }

  /** If nothing was sent and nothing arrives, the timer has run out. */
  function AtSocket(c: Config, s: System, arrives: bool): seq<Action>
    requires InRange(c, s)
  {
    if arrives && s.acks != [] then [DeliverAck] else if AtFile(c, s) == [SendBlock] then [] else [Resend]
  }

  /** All other turns are one step. */
  function OnlyStep(t: Turn): Action
    requires !t.SenderTurn?
  {
    match t
    case EndTurn => SendEnd
    case ReceiverTurn => DeliverData
    case DropData(i) => LoseData(i)
    case DropAck(i) => LoseAck(i)
  }

  function Steps(c: Config, s: System, t: Turn): (steps: seq<Action>)
    requires InRange(c, s)
    ensures |steps| <= 3
  {
    if !t.SenderTurn? then [OnlyStep(t)]
    else if s.phase != Reading then []
    else AtFile(c, s) + AtSocket(c, s, t.arrives) + if AtFile(c, s) == [ReadEnd] then [LeaveLoop] else []
  }

  function Perform(c: Config, s: System, steps: seq<Action>): (s': System)
    requires InRange(c, s)
    ensures InRange(c, s')
  {
    if steps == [] then s else Step(c, Perform(c, s, steps[..|steps| - 1]), steps[|steps| - 1])
  }

  function After(c: Config, s: System, t: Turn): (s': System)
    requires InRange(c, s)
    ensures InRange(c, s')
  {
    Perform(c, s, Steps(c, s, t))
  }

  function TurnRun(c: Config, turns: seq<Turn>): (s: System)
    requires c.Valid()
    ensures InRange(c, s)
  {
    if turns == [] then Initial(c) else After(c, TurnRun(c, turns[..|turns| - 1]), turns[|turns| - 1])
  }

  /** The timer runs out and the slot of the oldest packet was never filled: the
      pointer read from it is not set. */
  predicate ReadsUnset(c: Config, s: System, t: Turn)
    requires InRange(c, s)
  {
    && t.SenderTurn? && s.phase == Reading && !(t.arrives && s.acks != []) && AtFile(c, s) != [SendBlock]
    && S.Oldest(s.snd).None?
  }

  /** No turn of the run reads a pointer that was not set. */
  predicate Defined(c: Config, turns: seq<Turn>)
    requires c.Valid()
  {
    turns == [] ||
    var past := turns[..|turns| - 1];
    Defined(c, past) && !ReadsUnset(c, TurnRun(c, past), turns[|turns| - 1])
  }

  lemma TurnExtend(c: Config, turns: seq<Turn>, t: Turn)
    requires c.Valid()
    ensures TurnRun(c, turns + [t]) == After(c, TurnRun(c, turns), t)
    ensures Defined(c, turns + [t]) <==> Defined(c, turns) && !ReadsUnset(c, TurnRun(c, turns), t)
  {
    assert (turns + [t])[..|turns|] == turns;
  }

  // ---------------------------------------------------------------------------
  // Every run of turns is a run of steps

  function Actions(c: Config, turns: seq<Turn>): seq<Action>
    requires c.Valid()
  {
    if turns == [] then []
    else
      var past := turns[..|turns| - 1];
      Actions(c, past) + Steps(c, TurnRun(c, past), turns[|turns| - 1])
  }

  lemma {:induction false} PerformRun(c: Config, run: seq<Action>, steps: seq<Action>)
    requires c.Valid()
    ensures Perform(c, Run(c, run), steps) == Run(c, run + steps)
    decreases |steps|
  {
    hide Step;
    if steps == [] {
      assert run + steps == run;
    } else {
      var n := |steps| - 1;
      PerformRun(c, run, steps[..n]);
      assert (run + steps)[..|run + steps| - 1] == run + steps[..n];
    }
  }

  lemma {:induction false} TurnsAreSteps(c: Config, turns: seq<Turn>)
    requires c.Valid()
    ensures TurnRun(c, turns) == Run(c, Actions(c, turns))
  {
    hide Step, Steps, Run, Perform;
    if turns == [] {
      assert Run(c, []) == Initial(c) by { NoSteps(c); }
    } else {
      var past := turns[..|turns| - 1];
      TurnsAreSteps(c, past);
      PerformRun(c, Actions(c, past), Steps(c, TurnRun(c, past), turns[|turns| - 1]));
    }
  }

  lemma NoSteps(c: Config)
    requires c.Valid()
    ensures Run(c, []) == Initial(c)
  {
  }

  // ---------------------------------------------------------------------------
  // The turns one by one

  lemma PerformNext(c: Config, s: System, steps: seq<Action>, a: Action)
    requires InRange(c, s)
    ensures Perform(c, s, steps + [a]) == Step(c, Perform(c, s, steps), a)
  {
    hide Step;
    assert (steps + [a])[..|steps|] == steps;
  }

  lemma PerformOne(c: Config, s: System, a: Action)
    requires InRange(c, s)
    ensures Perform(c, s, [a]) == Step(c, s, a)
  {
    hide Step;
    PerformNext(c, s, [], a);
    assert [] + [a] == [a];
  }

  lemma PerformTwo(c: Config, s: System, a: Action, b: Action)
    requires InRange(c, s)
    ensures Perform(c, s, [a, b]) == Step(c, Step(c, s, a), b)
  {
    hide Step, Perform;
    PerformOne(c, s, a);
    PerformNext(c, s, [a], b);
    assert [a] + [b] == [a, b];
  }

  lemma PerformThree(c: Config, s: System, a: Action, b: Action, d: Action)
    requires InRange(c, s)
    ensures Perform(c, s, [a, b, d]) == Step(c, Step(c, Step(c, s, a), b), d)
  {
    hide Step, Perform;
    PerformTwo(c, s, a, b);
    PerformNext(c, s, [a, b], d);
    assert [a, b] + [d] == [a, b, d];
  }

  /** What a turn of the sender comes to in each case. */
  lemma SenderTurnIs(c: Config, s: System, arrives: bool)
    requires InRange(c, s) && s.phase == Reading
    ensures var s', reply := After(c, s, SenderTurn(arrives)), arrives && s.acks != [];
            if S.MayRead(s.snd) && s.Next() < |c.blocks| then
              s' == if reply then Step(c, Step(c, s, SendBlock), DeliverAck) else Step(c, s, SendBlock)
            else if S.MayRead(s.snd) then
              s' == Step(c, Step(c, Step(c, s, ReadEnd), if reply then DeliverAck else Resend), LeaveLoop)
            else
              s' == Step(c, s, if reply then DeliverAck else Resend)
  {
    hide Step, Perform, S.MayRead;
    var second := if arrives && s.acks != [] then DeliverAck else Resend;
    PerformOne(c, s, SendBlock);
    PerformOne(c, s, second);
    PerformTwo(c, s, SendBlock, DeliverAck);
    PerformThree(c, s, ReadEnd, second, LeaveLoop);
    assert [SendBlock] + [DeliverAck] + [] == [SendBlock, DeliverAck];
    assert [SendBlock] + [] + [] == [SendBlock] && [] + [second] + [] == [second];
    assert [ReadEnd] + [second] + [LeaveLoop] == [ReadEnd, second, LeaveLoop];
  }

  lemma OtherTurnIs(c: Config, s: System, t: Turn)
    requires InRange(c, s) && !t.SenderTurn?
    ensures After(c, s, t) == Step(c, s, OnlyStep(t))
  {
    hide Step, Perform;
    PerformOne(c, s, Steps(c, s, t)[0]);
  }

  /** A further turn in which the sender finds an acknowledgement, or can read a
      block, is defined. */
  lemma SenderTurns(c: Config, turns: seq<Turn>, arrives: bool)
    requires c.Valid() && Defined(c, turns) && TurnRun(c, turns).phase == Reading
    requires var s := TurnRun(c, turns);
             (arrives && s.acks != []) || (S.MayRead(s.snd) && s.Next() < |c.blocks|) || S.Oldest(s.snd).Some?
    ensures Defined(c, turns + [SenderTurn(arrives)])
    ensures var s := TurnRun(c, turns);
            var s', reply := TurnRun(c, turns + [SenderTurn(arrives)]), arrives && s.acks != [];
            if S.MayRead(s.snd) && s.Next() < |c.blocks| then
              s' == if reply then Step(c, Step(c, s, SendBlock), DeliverAck) else Step(c, s, SendBlock)
            else if S.MayRead(s.snd) then
              s' == Step(c, Step(c, Step(c, s, ReadEnd), if reply then DeliverAck else Resend), LeaveLoop)
            else
              s' == Step(c, s, if reply then DeliverAck else Resend)
  {
    hide Step, After, S.MayRead, S.Oldest, TurnRun, Defined;
    TurnExtend(c, turns, SenderTurn(arrives));
    SenderTurnIs(c, TurnRun(c, turns), arrives);
  }

  lemma OtherTurns(c: Config, turns: seq<Turn>, t: Turn)
    requires c.Valid() && Defined(c, turns) && !t.SenderTurn?
    ensures Defined(c, turns + [t])
    ensures TurnRun(c, turns + [t]) == Step(c, TurnRun(c, turns), OnlyStep(t))
  {
    hide Step, After, TurnRun, Defined;
    TurnExtend(c, turns, t);
    OtherTurnIs(c, TurnRun(c, turns), t);
  }
}
