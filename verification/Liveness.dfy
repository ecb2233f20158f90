/** Files for which a transfer can be lost beyond recovery although both sides are
    still in their loops, and the exact limit. */
module Liveness {
  import opened Common
  import opened Ring
  import opened Protocol
  import opened Turns
  import opened Leading
  import opened Progress
  import UnsetPointer
  import S = SenderSpec
  import R = ReceiverSpec

  // ---------------------------------------------------------------------------
  // A packet adds at most one block to what the receiver has

  /** The blocks that the receiver has written or holds. */
  function Had(r: R.Receiver): nat {
    |r.out| + R.Filled(r.ring)
  }

  lemma {:induction false} FilledAfterSet(ring: seq<Option<Block>>, i: nat, x: Block)
    requires i < |ring|
    ensures R.Filled(ring[i := Some(x)]) <= R.Filled(ring) + 1
  {
    if i > 0 {
      assert ring[i := Some(x)][1..] == ring[1..][i - 1 := Some(x)];
      FilledAfterSet(ring[1..], i - 1, x);
    } else {
      assert ring[0 := Some(x)][1..] == ring[1..];
    }
  }

  lemma {:induction false} FilledNone(ring: seq<Option<Block>>)
    requires forall i :: 0 <= i < |ring| ==> ring[i].None?
    ensures R.Filled(ring) == 0
  {
    if ring != [] {
      FilledNone(ring[1..]);
    }
  }

  /** The drain neither loses nor repeats a block. */
  lemma {:induction false} DrainConserves(r: R.Receiver)
    requires R.Indexed(r)
    ensures Had(R.Drain(r)) == Had(r)
    decreases R.Filled(r.ring)
  {
    if r.ring[r.index].Some? {
      R.FilledAfterClear(r.ring, r.index);
      DrainConserves(R.Advance(r));
    }
  }

  lemma ReceiveConserves(r: R.Receiver, num: nat, block: Block)
    requires R.Indexed(r) && num < 256
    ensures Had(R.Receive(r, num, block)) <= Had(r) + 1
  {
    hide R.Drain, R.Filled;
    DrainConserves(R.AddBuffer(r, num, block));
    if R.Accepted(num, r.seqExp, |r.ring|) {
      var lifted := if num < r.seqExp then num + 256 else num;
      FilledAfterSet(r.ring, (r.index + (lifted - r.seqExp)) % |r.ring|, block);
    }
  }

  lemma HadNothingMore(r: R.Receiver)
    requires R.Valid(r) && R.Pending(r) == map[]
    ensures Had(r) == |r.out|
  {
    hide Slot;
    forall i | 0 <= i < |r.ring|
      ensures r.ring[i].None?
    {
      var a := SlotOnto(i, |r.out|, |r.ring|);
      assert a !in R.Pending(r);
    }
    FilledNone(r.ring);
  }

  function Blocks(data: seq<Message>): nat {
    if data == [] then 0 else Blocks(data[..|data| - 1]) + if data[|data| - 1].Data? then 1 else 0
  }

  lemma {:induction false} BlocksConcat(p: seq<Message>, q: seq<Message>)
    ensures Blocks(p + q) == Blocks(p) + Blocks(q)
    decreases |q|
  {
    if q == [] {
      assert p + q == p;
    } else {
      var n := |q| - 1;
      assert (p + q)[..|p + q| - 1] == p + q[..n];
      BlocksConcat(p, q[..n]);
    }
  }

  lemma {:induction false} BlocksWithout(data: seq<Message>, i: nat)
    requires i < |data|
    ensures Blocks(data) == Blocks(Without(data, i)) + if data[i].Data? then 1 else 0
    decreases |data|
  {
    var n := |data| - 1;
    if i == n {
      assert Without(data, i) == data[..n];
    } else {
      BlocksWithout(data[..n], i);
      assert Without(data, i)[..n - 1] == Without(data[..n], i);
    }
  }

  lemma BlocksOne(m: Message)
    ensures Blocks([m]) == if m.Data? then 1 else 0
  {
    assert [m][..0] == [];
  }

  // ---------------------------------------------------------------------------
  // Beyond recovery

  /** The next turn of the sender is its last one, and two blocks are missing; or it
      was the last one, and at most one of them is under way. */
  predicate Doomed(c: Config, s: System, n: nat) {
    && InRange(c, s) && n + 2 <= |c.blocks|
    && match s.phase
       case Reading =>
         S.MayRead(s.snd) && s.Next() == |c.blocks| && s.data == [] && s.acks == [] && Had(s.rcv) <= n
       case LastTurn => false
       case Ending => Had(s.rcv) + Blocks(s.data) <= n + 1
  }

  lemma LastTurnDoomed(c: Config, s: System, n: nat)
    requires Doomed(c, s, n) && s.phase == Reading
    ensures Doomed(c, Step(c, Step(c, Step(c, s, ReadEnd), Resend), LeaveLoop), n)
  {
    hide S.MayRead, S.InRange, R.Indexed, S.Oldest, R.Filled;
    var t := Step(c, Step(c, Step(c, s, ReadEnd), Resend), LeaveLoop);
    if t.data != [] {
      assert t.data == [t.data[0]];
      BlocksOne(t.data[0]);
    }
  }

  lemma DeliverDoomed(c: Config, s: System, n: nat)
    requires Doomed(c, s, n)
    ensures Doomed(c, Step(c, s, DeliverData), n)
  {
    hide S.MayRead, S.InRange, R.Indexed, S.Oldest, R.Filled, R.Receive, Blocks;
    if Enabled(c, s, DeliverData) {
      BlocksWithout(s.data, 0);
      assert Without(s.data, 0) == s.data[1..];
      if s.data[0].Data? {
        assert Step(c, s, DeliverData).rcv == R.Receive(s.rcv, s.data[0].num, s.data[0].block);
        ReceiveConserves(s.rcv, s.data[0].num, s.data[0].block);
      }
    }
  }

  lemma OtherDoomed(c: Config, s: System, a: Action, n: nat)
    requires Doomed(c, s, n) && (a.LoseData? || a.LoseAck? || a.SendEnd?)
    ensures Doomed(c, Step(c, s, a), n)
  {
    hide S.MayRead, S.InRange, R.Indexed, S.Oldest, R.Filled, Blocks;
    if a.LoseData? && a.at < |s.data| {
      BlocksWithout(s.data, a.at);
    } else if a.SendEnd? && s.phase == Ending {
      var m := Step(c, s, a).data[|s.data|];
      assert Step(c, s, a).data == s.data + [m];
      BlocksConcat(s.data, [m]);
      BlocksOne(m);
    }
  }

  lemma TurnDoomed(c: Config, s: System, t: Turn, n: nat)
    requires Doomed(c, s, n)
    ensures Doomed(c, After(c, s, t), n)
  {
    hide Step, After, S.MayRead, Had;
    if !t.SenderTurn? {
      OtherTurnIs(c, s, t);
    }
    match t
    case SenderTurn(arrives) =>
      if s.phase == Reading {
        SenderTurnIs(c, s, arrives);
        LastTurnDoomed(c, s, n);
      } else {
        UnsetPointer.NoTurn(c, s, arrives);
      }
    case ReceiverTurn => DeliverDoomed(c, s, n);
    case EndTurn => OtherDoomed(c, s, SendEnd, n);
    case DropData(i) => OtherDoomed(c, s, LoseData(i), n);
    case DropAck(i) => OtherDoomed(c, s, LoseAck(i), n);
  }

  lemma {:induction false} DoomedForever(c: Config, past: seq<Turn>, turns: seq<Turn>, n: nat)
    requires c.Valid() && Doomed(c, TurnRun(c, past), n) && past <= turns
    ensures Doomed(c, TurnRun(c, turns), n)
    decreases |turns|
  {
    hide Doomed, After;
    if |turns| > |past| {
      DoomedForever(c, past, turns[..|turns| - 1], n);
      TurnDoomed(c, TurnRun(c, turns[..|turns| - 1]), turns[|turns| - 1], n);
    } else {
      assert turns == past;
    }
  }

  lemma DoomedIncomplete(c: Config, s: System, n: nat)
    requires Doomed(c, s, n)
    ensures |s.rcv.out| < |c.blocks|
  {
  }

  /** The last block that arrives before that. */
  function LastArrived(c: Config): (n: nat)
    requires c.Valid() && !Finishable(c)
    ensures n + 2 <= |c.blocks| && (n >= 1 || c.w == 1)
    ensures |c.blocks| < n + c.w || n % 256 + c.w >= 256
  {
    if c.w >= 3 then |c.blocks| - 2 else 256 - c.w
  }

  /** Two blocks are lost, and the test lets the sender read the end. */
  lemma TwoLost(c: Config) returns (turns: seq<Turn>, n: nat)
    requires c.Valid() && !Finishable(c)
    ensures Defined(c, turns) && InLoops(TurnRun(c, turns)) && Doomed(c, TurnRun(c, turns), n)
  {
    hide TurnRun, Defined, Ahead, Flooded, S.MayRead, Doomed, InLoops, Finishable, LastArrived;
    var t := |c.blocks|;
    n := LastArrived(c);
    var lead := LeadAlone(c, n);
    var s := TurnRun(c, lead);
    AheadGives(c, s, n);
    NotYetFlooded(c, s, n);
    turns := Flood(c, lead, t - n - 1);
    FloodedGives(c, s, TurnRun(c, turns), t - n - 1);
    FloodGoesOn(c, s, TurnRun(c, turns), t - n - 1);
    FloodDooms(c, s, TurnRun(c, turns), n);
  }

  lemma FloodDooms(c: Config, s: System, t: System, n: nat)
    requires Ahead(c, s, n) && n + 2 <= |c.blocks| && Flooded(c, s, t, |c.blocks| - n - 1) && S.MayRead(t.snd)
    ensures InLoops(t) && Doomed(c, t, n)
  {
    hide Slot, S.RingInv, R.Pending, S.MayRead, Had, S.InRange, R.Indexed;
    HadNothingMore(s.rcv);
  }

  /** However a run of the loops has gone, as long as both sides are still in them
      further turns can bring the whole file over. */
  ghost predicate AlwaysFinishable(c: Config)
    requires c.Valid()
  {
    forall past: seq<Turn> :: Defined(c, past) && InLoops(TurnRun(c, past)) ==> HasFinish(c, past)
  }

  ghost predicate HasFinish(c: Config, past: seq<Turn>)
    requires c.Valid()
  {
    exists turns: seq<Turn> :: past <= turns && Defined(c, turns) && TurnRun(c, turns).rcv.out == c.blocks
  }

  /** That is so exactly for files of at most two blocks, with a window of one for
      files of at most 256 blocks, and with a window of two for files of at most
      255. */
  lemma LivenessLimit(c: Config)
    requires c.Valid()
    ensures AlwaysFinishable(c) <==>
            |c.blocks| <= 2 || (c.w == 1 && |c.blocks| <= 256) || (c.w == 2 && |c.blocks| <= 255)
  {
    if Finishable(c) {
      forall past: seq<Turn> | Defined(c, past) && InLoops(TurnRun(c, past))
        ensures HasFinish(c, past)
      {
        var turns := CanFinish(c, past);
      }
    } else {
      var past, n := TwoLost(c);
      NoFinish(c, past, n);
    }
  }

  lemma NoFinish(c: Config, past: seq<Turn>, n: nat)
    requires c.Valid() && Doomed(c, TurnRun(c, past), n)
    ensures !HasFinish(c, past)
  {
    hide Doomed, TurnRun, Defined;
    forall turns: seq<Turn> | past <= turns
      ensures TurnRun(c, turns).rcv.out != c.blocks
    {
      DoomedForever(c, past, turns, n);
      DoomedIncomplete(c, TurnRun(c, turns), n);
    }
  }
}
