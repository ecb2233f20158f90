/** The exact limit on the size of a file in bytes, for the system with encoded
    packets. */
module ByteLimit {
  import opened Bytes
  import opened Common
  import opened PacketSpec
  import opened Datagrams
  import opened Protocol
  import opened Transfer
  import FileSize
  import S = SenderSpec
  import R = ReceiverSpec
  import T = Turns
  import W = Wire
  import WT = WireTurns

  // ---------------------------------------------------------------------------
  // Every run on packets is a run on bytes

  predicate AllIntact(s: W.State) {
    && (forall i :: 0 <= i < |s.data| ==> s.data[i].intact)
    && (forall i :: 0 <= i < |s.acks| ==> s.acks[i].intact)
  }

  lemma {:induction false} IntactKeepsAll<M>(q: seq<W.Datagram<M>>)
    requires forall i :: 0 <= i < |q| ==> q[i].intact
    ensures |W.Intact(q)| == |q|
    decreases |q|
  {
    if q != [] {
      IntactKeepsAll(q[..|q| - 1]);
    }
  }

  /** What fills the buffer behind the datagram that arrives. */
  function Fill<M>(q: seq<W.Datagram<M>>): seq<byte> {
    if q == [] || |q[0].bytes| > DATAGRAM_SIZE then [] else ZeroBytes(DATAGRAM_SIZE - |q[0].bytes|)
  }

  lemma FillFits<M>(q: seq<W.Datagram<M>>)
    requires q != [] && q[0].pkt.WellFormed() && W.Consistent(q[0]) && q[0].intact
    ensures |q[0].bytes + Fill(q)| == DATAGRAM_SIZE
  {
    hide Encode;
  }

  function OnWire(s: W.State, a: Action): W.WireAction {
    match a
    case SendBlock => W.SendBlock(0)
    case ReadEnd => W.ReadEnd
    case LeaveLoop => W.LeaveLoop
    case SendEnd => W.SendEnd(0)
    case Resend => W.Resend(0)
    case LoseData(i) => W.LoseData(i)
    case LoseAck(i) => W.LoseAck(i)
    case DeliverData => W.DeliverData(Fill(s.data), 0)
    case DeliverAck => W.DeliverAck(Fill(s.acks))
  }

  function ZeroBytes(n: nat): (s: seq<byte>)
    ensures |s| == n && forall i :: 0 <= i < n ==> s[i] == 0
  {
    if n == 0 then [] else ZeroBytes(n - 1) + [0]
  }

  lemma ArriveKeepsIntact(c: Config, s: W.State, a: W.WireAction)
    requires W.InRange(c, s) && AllIntact(s) && (a.DeliverData? || a.DeliverAck?)
    ensures AllIntact(W.Step(c, s, a))
  {
    hide W.Intact, Encode, Decode;
  }

  predicate Undamaging(steps: seq<W.WireAction>) {
    forall i :: 0 <= i < |steps| ==> !steps[i].DamageData? && !steps[i].DamageAck?
  }

  lemma StepKeepsIntact(c: Config, s: W.State, a: W.WireAction)
    requires W.InRange(c, s) && AllIntact(s) && Undamaging([a])
    ensures AllIntact(W.Step(c, s, a))
  {
    hide W.Arrive, W.TakeReply, Encode, Decode, S.Oldest, S.Send, S.MayRead, S.InRange, S.Sendable, R.Indexed;
    assert [a][0] == a;
    if a.DeliverData? || a.DeliverAck? {
      ArriveKeepsIntact(c, s, a);
    }
  }

  lemma OnWireMeans(c: Config, s: W.State, a: Action)
    requires W.WireInv(c, s) && AllIntact(s)
    ensures Protocol.InRange(c, W.Abstract(s))
    ensures W.Meaning(c, s, OnWire(s, a)) == if Protocol.Enabled(c, W.Abstract(s), a) then [a] else []
    ensures AllIntact(W.Step(c, s, OnWire(s, a)))
  {
    hide W.Intact, Fill, Encode, Decode, W.Step, S.Oldest, S.MayRead;
    W.AbstractInRange(c, s);
    StepKeepsIntact(c, s, OnWire(s, a));
    IntactKeepsAll(s.data);
    IntactKeepsAll(s.acks);
    match a
    case LoseData(i) =>
      if i < |s.data| {
        IntactKeepsAll(s.data[..i]);
      }
    case LoseAck(i) =>
      if i < |s.acks| {
        IntactKeepsAll(s.acks[..i]);
      }
    case DeliverData =>
      if s.data != [] {
        FillFits(s.data);
      }
    case DeliverAck =>
      if s.acks != [] {
        FillFits(s.acks);
      }
    case _ =>
  }

  lemma {:induction false} RunOnWire(c: Config, run: seq<Action>) returns (wire: seq<W.WireAction>)
    requires c.Valid()
    ensures AllIntact(W.Run(c, wire)) && W.Abstract(W.Run(c, wire)) == Run(c, run)
  {
    hide W.Step, Protocol.Step, W.Abstract, W.WireInv, AllIntact;
    if run == [] {
      wire := [];
      W.InitiallyRefines(c);
      InitiallyIntact(c);
    } else {
      var past, a := run[..|run| - 1], run[|run| - 1];
      wire := RunOnWire(c, past);
      W.RunRefines(c, wire);
      var s := W.Run(c, wire);
      OnWireMeans(c, s, a);
      W.Simulate(c, s, OnWire(s, a));
      NotEnabled(c, W.Abstract(s), a);
      assert (wire + [OnWire(s, a)])[..|wire|] == wire;
      wire := wire + [OnWire(s, a)];
    }
  }

  lemma InitiallyIntact(c: Config)
    ensures AllIntact(W.Initial(c))
  {
  }

  lemma NotEnabled(c: Config, s: System, a: Action)
    requires Protocol.InRange(c, s)
    ensures !Protocol.Enabled(c, s, a) ==> Protocol.Step(c, s, a) == s
  {
  }

  // ---------------------------------------------------------------------------
  // And every run of turns is one on bytes

  function TurnOnWire(s: W.State, t: T.Turn): WT.WireTurn {
    match t
    case SenderTurn(arrives) => WT.SenderTurn(arrives, Fill(s.acks), 0)
    case EndTurn => WT.EndTurn(0)
    case ReceiverTurn => WT.ReceiverTurn(Fill(s.data), 0)
    case DropData(i) => WT.DropData(i)
    case DropAck(i) => WT.DropAck(i)
  }

  lemma {:induction false} StepsKeepIntact(c: Config, s: W.State, steps: seq<W.WireAction>)
    requires W.InRange(c, s) && AllIntact(s) && Undamaging(steps)
    ensures AllIntact(WT.Perform(c, s, steps))
    decreases |steps|
  {
    hide W.Step, AllIntact;
    if steps != [] {
      var n := |steps| - 1;
      StepsKeepIntact(c, s, steps[..n]);
      StepKeepsIntact(c, WT.Perform(c, s, steps[..n]), steps[n]);
    }
  }

  lemma AckFits(c: Config, s: W.State)
    requires W.WireInv(c, s) && AllIntact(s) && s.acks != []
    ensures s.acks[0].intact && |s.acks[0].bytes + Fill(s.acks)| == DATAGRAM_SIZE
  {
    FillFits(s.acks);
  }

  lemma TurnOnWireMeans(c: Config, s: W.State, t: T.Turn)
    requires W.WireInv(c, s) && AllIntact(s)
    ensures Protocol.InRange(c, W.Abstract(s)) && AllIntact(WT.After(c, s, TurnOnWire(s, t)))
    ensures W.Abstract(WT.After(c, s, TurnOnWire(s, t))) == T.After(c, W.Abstract(s), t)
    ensures WT.ReadsUnset(c, s, TurnOnWire(s, t)) <==> T.ReadsUnset(c, W.Abstract(s), t)
  {
    hide W.Intact, Fill, WT.Perform, T.Perform, W.Step, Protocol.Step, W.WireInv, W.Meaning, S.MayRead, S.Oldest;
    hide LoopTurn, WT.Heard, WT.NextBlock;
    WT.InvIsInRange(c, s);
    WT.AbstractKeeps(c, s);
    StepsKeepIntact(c, s, WT.Steps(c, s, TurnOnWire(s, t)));
    WT.TurnRefines(c, s, TurnOnWire(s, t));
    WT.UnsetRefines(c, s, TurnOnWire(s, t));
    IntactKeepsAll(s.acks);
    if t.SenderTurn? && s.acks != [] {
      AckFits(c, s);
    }
    if !t.SenderTurn? {
      OtherTurnOnWire(c, s, t);
    }
  }

  lemma OtherTurnOnWire(c: Config, s: W.State, t: T.Turn)
    requires W.WireInv(c, s) && AllIntact(s) && !t.SenderTurn?
    ensures W.InRange(c, s) && Protocol.InRange(c, W.Abstract(s))
    ensures var meaning := WT.TurnMeaning(c, s, TurnOnWire(s, t));
            T.After(c, W.Abstract(s), t) ==
            if meaning == [] then W.Abstract(s) else T.After(c, W.Abstract(s), meaning[0])
  {
    hide W.Intact, Fill, T.Perform, W.Step, Protocol.Step, W.WireInv, W.Meaning, S.MayRead, S.Oldest;
    WT.InvIsInRange(c, s);
    WT.AbstractKeeps(c, s);
    var a := T.Steps(c, W.Abstract(s), t)[0];
    assert WT.Steps(c, s, TurnOnWire(s, t))[0] == OnWire(s, a);
    OnWireMeans(c, s, a);
    T.OtherTurnIs(c, W.Abstract(s), t);
    NotEnabled(c, W.Abstract(s), a);
  }

  lemma {:induction false} TurnsOnWire(c: Config, turns: seq<T.Turn>) returns (wire: seq<WT.WireTurn>)
    requires c.Valid()
    ensures AllIntact(WT.TurnRun(c, wire)) && W.Abstract(WT.TurnRun(c, wire)) == T.TurnRun(c, turns)
    ensures WT.Defined(c, wire) <==> T.Defined(c, turns)
  {
    hide WT.After, T.After, W.Abstract, W.WireInv, AllIntact, WT.ReadsUnset, T.ReadsUnset, TurnOnWire;
    if turns == [] {
      wire := [];
      W.InitiallyRefines(c);
      InitiallyIntact(c);
    } else {
      var past, t := turns[..|turns| - 1], turns[|turns| - 1];
      wire := TurnsOnWire(c, past);
      WT.TurnRunRefines(c, wire);
      var s := WT.TurnRun(c, wire);
      TurnOnWireMeans(c, s, t);
      assert (wire + [TurnOnWire(s, t)])[..|wire|] == wire;
      wire := wire + [TurnOnWire(s, t)];
    }
  }

  // ---------------------------------------------------------------------------
  // The file that goes wrong

  /** A file of zeros but for one byte. */
  function MarkedFile(n: nat, at: nat): (file: seq<byte>)
    ensures |file| == n && forall i :: 0 <= i < n ==> file[i] == if i == at then 1 else 0
  {
    if n == 0 then [] else MarkedFile(n - 1, at) + [if n - 1 == at then 1 else 0]
  }

  /** Block `i` starts `512 * i` bytes into the file, and all blocks before the
      last are full. */
  lemma {:induction false} BlockAt(file: seq<byte>, i: nat)
    requires 512 * i < |file|
    ensures i < |Blocks(file)| && Blocks(file)[i] != [] && Blocks(file)[i][0] == file[512 * i]
    ensures 512 * (i + 1) <= |file| ==> |Blocks(file)[i]| == 512
    decreases i
  {
    if i > 0 {
      var rest := file[512..];
      BlockAt(rest, i - 1);
      assert Blocks(file)[1..] == Blocks(rest);
      assert Blocks(file)[i] == Blocks(rest)[i - 1];
    }
  }

  lemma {:induction false} ConcatenatedAt(blocks: seq<Block>, m: nat)
    requires m < |blocks| && blocks[m] != [] && forall i :: 0 <= i < m ==> |blocks[i]| == 512
    ensures 512 * m < |Concatenated(blocks)| && Concatenated(blocks)[512 * m] == blocks[m][0]
    decreases m
  {
    if m > 0 {
      assert blocks[1..][m - 1] == blocks[m];
      ConcatenatedAt(blocks[1..], m - 1);
    }
  }

  /** The bytes written by the receiver after a run of turns. */
  ghost function WrittenAfter(file: seq<byte>, w: nat, turns: seq<WT.WireTurn>): seq<byte>
    requires 1 <= w <= MAX_WINDOW_SIZE
  {
    Concatenated(WT.TurnRun(FileConfig(file, w), turns).rcv.out)
  }

  /** For every larger size there is a file and a run of the loops that writes
      something else. */
  lemma WrongTurns(n: nat, w: nat) returns (file: seq<byte>, turns: seq<T.Turn>)
    requires 1 <= w <= MAX_WINDOW_SIZE && n > (512 - w) * MAX_PAYLOAD_SIZE
    ensures |file| == n && T.Defined(FileConfig(file, w), turns)
    ensures !(Concatenated(T.TurnRun(FileConfig(file, w), turns).rcv.out) <= file)
  {
    hide T.TurnRun, T.Defined, Blocks, MarkedFile, Concatenated;
    file := MarkedFile(n, 512 * (512 - w));
    var c := FileConfig(file, w);
    BlockAt(file, 512 - w);
    turns := FileSize.PrefixBreaks(c);
    MisplacedBlock(n, w, T.TurnRun(c, turns).rcv.out);
  }

  lemma WrongBytes(n: nat, w: nat) returns (file: seq<byte>, wire: seq<WT.WireTurn>)
    requires 1 <= w <= MAX_WINDOW_SIZE && n > (512 - w) * MAX_PAYLOAD_SIZE
    ensures |file| == n && WT.Defined(FileConfig(file, w), wire) && !(WrittenAfter(file, w, wire) <= file)
  {
    hide T.TurnRun, WT.TurnRun, T.Defined, WT.Defined, Blocks, Concatenated, AllIntact, W.Intact;
    var turns;
    file, turns := WrongTurns(n, w);
    wire := TurnsOnWire(FileConfig(file, w), turns);
  }

  /** The marked block in place of an earlier one is no prefix of the marked
      file. */
  lemma MisplacedBlock(n: nat, w: nat, out: seq<Block>)
    requires 1 <= w <= MAX_WINDOW_SIZE && n > (512 - w) * MAX_PAYLOAD_SIZE
    requires var blocks, m := Blocks(MarkedFile(n, 512 * (512 - w))), 256 - w;
             && |blocks| > 512 - w && |out| > m && out[..m] == blocks[..m] && out[m] == blocks[512 - w]
    ensures !(Concatenated(out) <= MarkedFile(n, 512 * (512 - w)))
  {
    hide Blocks, Concatenated, MarkedFile;
    var file, m := MarkedFile(n, 512 * (512 - w)), 256 - w;
    BlockAt(file, 512 - w);
    forall i | 0 <= i < m
      ensures |out[i]| == 512
    {
      assert out[i] == out[..m][i] == Blocks(file)[..m][i];
      BlockAt(file, i);
    }
    ConcatenatedAt(out, m);
    assert file[512 * m] == 0;
  }

  /** Whatever is lost and whichever damage is noticed, every file of `n` bytes is
      received as a prefix in every run of the loops if and only if `n` is at most 512
      times 512 less the window. */
  lemma FileBytesLimit(n: nat, w: nat)
    requires 1 <= w <= MAX_WINDOW_SIZE
    ensures (forall file: seq<byte>, turns: seq<WT.WireTurn> ::
               |file| == n && WT.Defined(FileConfig(file, w), turns) ==> WrittenAfter(file, w, turns) <= file)
            <==> n <= (512 - w) * MAX_PAYLOAD_SIZE
  {
    if n <= (512 - w) * MAX_PAYLOAD_SIZE {
      forall file: seq<byte>, turns: seq<WT.WireTurn> | |file| == n
        ensures WrittenAfter(file, w, turns) <= file
      {
        var c := FileConfig(file, w);
        WT.TurnsAreSteps(c, turns);
        PrefixOfSmallFile(file, w, WT.Actions(c, turns));
      }
    } else {
      var file, turns := WrongBytes(n, w);
    }
  }
}
