/** The turns on bytes over a network that may also repeat what was sent before, and
    the exact limits on the size of a file in bytes. */
module WireNetwork {
  import opened Bytes
  import opened Common
  import opened PacketSpec
  import opened Protocol
  import opened Transfer
  import opened ByteLimit
  import AckDisorder
  import Unordered
  import Safety
  import Timely
  import N = Network
  import T = Turns
  import W = Wire
  import WT = WireTurns

  /** `dataSent` and `acksSent` are all datagrams ever sent, as they were sent. */
  datatype WireNet = WireNet(sys: W.State, dataSent: seq<W.Datagram<Message>>, acksSent: seq<W.Datagram<Ack>>)

  /** A turn of a loop, the loss or the damage of a datagram, or a datagram sent
      earlier that arrives, or is damaged, before those under way. */
  datatype WireEvent = Loop(turn: WT.WireTurn) | RepeatData(i: nat) | RepeatAck(i: nat)

  ghost function Happen(c: Config, n: WireNet, e: WireEvent): (n': WireNet)
    requires W.InRange(c, n.sys)
    ensures W.InRange(c, n'.sys)
  {
    match e
    case Loop(t) =>
      var s, s' := n.sys, WT.After(c, n.sys, t);
      WireNet(s',
              n.dataSent + (if t.SenderTurn? || t.EndTurn? then N.Appended(s.data, s'.data) else []),
              n.acksSent + (if t.ReceiverTurn? then N.Appended(s.acks, s'.acks) else []))
    case RepeatData(i) =>
      if i < |n.dataSent| then n.(sys := n.sys.(data := [n.dataSent[i]] + n.sys.data)) else n
    case RepeatAck(i) =>
      if i < |n.acksSent| then n.(sys := n.sys.(acks := [n.acksSent[i]] + n.sys.acks)) else n
  }

  ghost function NetRun(c: Config, events: seq<WireEvent>): (n: WireNet)
    requires c.Valid()
    ensures W.InRange(c, n.sys)
  {
    if events == [] then WireNet(W.Initial(c), [], [])
    else Happen(c, NetRun(c, events[..|events| - 1]), events[|events| - 1])
  }

  /** No turn of the run reads a pointer that was not set. */
  ghost predicate NetDefined(c: Config, events: seq<WireEvent>)
    requires c.Valid()
  {
    events == [] ||
    var past, e := events[..|events| - 1], events[|events| - 1];
    NetDefined(c, past) && (e.Loop? ==> !WT.ReadsUnset(c, NetRun(c, past).sys, e.turn))
  }

  lemma NetExtend(c: Config, events: seq<WireEvent>, e: WireEvent)
    requires c.Valid()
    ensures NetRun(c, events + [e]) == Happen(c, NetRun(c, events), e)
    ensures NetDefined(c, events + [e]) <==>
            NetDefined(c, events) && (e.Loop? ==> !WT.ReadsUnset(c, NetRun(c, events).sys, e.turn))
  {
    assert (events + [e])[..|events|] == events;
  }

  // ---------------------------------------------------------------------------
  // What was sent

  function Messages<M>(q: seq<W.Datagram<M>>): (r: seq<M>)
    ensures |r| == |q| && forall i :: 0 <= i < |q| ==> r[i] == q[i].msg
  {
    seq(|q|, i requires 0 <= i < |q| => q[i].msg)
  }

  lemma MessagesConcat<M>(p: seq<W.Datagram<M>>, q: seq<W.Datagram<M>>)
    ensures Messages(p + q) == Messages(p) + Messages(q)
  {
  }

  ghost predicate DataKept(q: seq<W.Datagram<Message>>) {
    forall i :: 0 <= i < |q| ==> q[i].intact && W.CarriesMessage(q[i].pkt, q[i].msg) && W.Consistent(q[i])
  }

  ghost predicate AcksKept(q: seq<W.Datagram<Ack>>) {
    forall i :: 0 <= i < |q| ==> q[i].intact && W.CarriesAck(q[i].pkt, q[i].msg) && W.Consistent(q[i])
  }

  ghost predicate NetInv(c: Config, n: WireNet) {
    W.WireInv(c, n.sys) && DataKept(n.dataSent) && AcksKept(n.acksSent)
  }

  /** `more` is `q` and what was sent since. */
  ghost predicate Extends<M>(q: seq<W.Datagram<M>>, more: seq<W.Datagram<M>>) {
    q <= more && forall i :: |q| <= i < |more| ==> more[i].intact
  }

  lemma {:induction false} IntactConcat<M>(q: seq<W.Datagram<M>>, added: seq<W.Datagram<M>>)
    requires forall i :: 0 <= i < |added| ==> added[i].intact
    ensures W.Intact(q + added) == W.Intact(q) + Messages(added)
    decreases |added|
  {
    hide W.Intact, Messages;
    if added == [] {
      assert q + added == q && Messages(added) == [];
    } else {
      var n := |added| - 1;
      IntactConcat(q, added[..n]);
      assert added == added[..n] + [added[n]] && q + added == (q + added[..n]) + [added[n]];
      W.IntactAppend(q + added[..n], added[n]);
      MessagesConcat(added[..n], [added[n]]);
      assert Messages([added[n]]) == [added[n].msg];
    }
  }

  lemma ExtendsIntact<M>(q: seq<W.Datagram<M>>, more: seq<W.Datagram<M>>)
    requires Extends(q, more)
    ensures W.Intact(more) == W.Intact(q) + Messages(N.Appended(q, more))
  {
    assert more == q + N.Appended(q, more);
    IntactConcat(q, N.Appended(q, more));
  }

  lemma ExtendsTwice<M>(p: seq<W.Datagram<M>>, q: seq<W.Datagram<M>>, r: seq<W.Datagram<M>>)
    requires Extends(p, q) && Extends(q, r)
    ensures Extends(p, r)
  {
    assert forall i :: |p| <= i < |q| ==> r[i] == q[i];
  }

  predicate AddsData(a: W.WireAction) {
    !a.LoseData? && !a.DamageData? && !a.DeliverData?
  }

  lemma StepExtends(c: Config, s: W.State, a: W.WireAction)
    requires W.InRange(c, s)
    ensures AddsData(a) ==> Extends(s.data, W.Step(c, s, a).data)
    ensures a.DeliverData? ==> Extends(s.acks, W.Step(c, s, a).acks)
  {
    hide Encode, Decode;
  }

  lemma {:induction false} PerformExtends(c: Config, s: W.State, steps: seq<W.WireAction>)
    requires W.InRange(c, s) && forall i :: 0 <= i < |steps| ==> AddsData(steps[i])
    ensures Extends(s.data, WT.Perform(c, s, steps).data)
    decreases |steps|
  {
    hide W.Step, Extends;
    if steps == [] {
      ExtendsItself(s.data);
    } else {
      var n := |steps| - 1;
      PerformExtends(c, s, steps[..n]);
      var s' := WT.Perform(c, s, steps[..n]);
      StepExtends(c, s', steps[n]);
      ExtendsTwice(s.data, s'.data, W.Step(c, s', steps[n]).data);
    }
  }

  lemma ExtendsItself<M>(q: seq<W.Datagram<M>>)
    ensures Extends(q, q)
  {
  }

  lemma TurnExtends(c: Config, s: W.State, t: WT.WireTurn)
    requires W.InRange(c, s)
    ensures t.SenderTurn? || t.EndTurn? ==> Extends(s.data, WT.After(c, s, t).data)
    ensures t.ReceiverTurn? ==> Extends(s.acks, WT.After(c, s, t).acks)
  {
    hide W.Step, WT.Perform, Extends, WT.Heard;
    if t.ReceiverTurn? {
      WT.OtherTurnIs(c, s, t);
      StepExtends(c, s, WT.Steps(c, s, t)[0]);
    } else if t.SenderTurn? || t.EndTurn? {
      PerformExtends(c, s, WT.Steps(c, s, t));
    }
  }

  lemma ExtendsKept(c: Config, s: W.State, s': W.State)
    requires W.WireInv(c, s')
    ensures Extends(s.data, s'.data) ==> DataKept(N.Appended(s.data, s'.data))
    ensures Extends(s.acks, s'.acks) ==> AcksKept(N.Appended(s.acks, s'.acks))
  {
    hide W.Consistent, W.CarriesMessage, W.CarriesAck;
  }

  // ---------------------------------------------------------------------------
  // A run on bytes means one on packets

  ghost predicate Represents(n: WireNet, m: N.Net) {
    && W.Abstract(n.sys) == m.sys
    && Messages(n.dataSent) == m.dataSent && Messages(n.acksSent) == m.acksSent
  }

  /** If the turns agree on the state, they agree on what was sent. */
  lemma TurnRepresents(c: Config, n: WireNet, t: WT.WireTurn, m: N.Net, p: T.Turn)
    requires NetInv(c, n) && Represents(n, m) && N.NetInRange(c, m)
    requires (p.SenderTurn? || p.EndTurn?) == (t.SenderTurn? || t.EndTurn?) && p.ReceiverTurn? == t.ReceiverTurn?
    requires W.InRange(c, n.sys) && W.WireInv(c, WT.After(c, n.sys, t))
    requires W.Abstract(WT.After(c, n.sys, t)) == T.After(c, m.sys, p)
    ensures NetInv(c, Happen(c, n, Loop(t))) && Represents(Happen(c, n, Loop(t)), N.Happen(c, m, N.Loop(p)))
  {
    hide WT.After, T.After, W.WireInv, Extends, W.Intact, N.Takes;
    var s, s' := n.sys, WT.After(c, n.sys, t);
    TurnExtends(c, s, t);
    ExtendsKept(c, s, s');
    if t.SenderTurn? || t.EndTurn? {
      ExtendsIntact(s.data, s'.data);
      AppendedIs(W.Intact(s.data), Messages(N.Appended(s.data, s'.data)));
      MessagesConcat(n.dataSent, N.Appended(s.data, s'.data));
    } else if t.ReceiverTurn? {
      ExtendsIntact(s.acks, s'.acks);
      AppendedIs(W.Intact(s.acks), Messages(N.Appended(s.acks, s'.acks)));
      MessagesConcat(n.acksSent, N.Appended(s.acks, s'.acks));
    }
    ConcatKept(n.dataSent, N.Appended(s.data, s'.data), n.acksSent, N.Appended(s.acks, s'.acks));
  }

  lemma AppendedIs<M>(p: seq<M>, q: seq<M>)
    ensures N.Appended(p, p + q) == q
  {
  }

  lemma ConcatKept(p: seq<W.Datagram<Message>>, q: seq<W.Datagram<Message>>,
                   r: seq<W.Datagram<Ack>>, t: seq<W.Datagram<Ack>>)
    ensures DataKept(p) && DataKept(q) ==> DataKept(p + q)
    ensures AcksKept(r) && AcksKept(t) ==> AcksKept(r + t)
    ensures p + [] == p && r + [] == r
  {
    hide W.Consistent, W.CarriesMessage, W.CarriesAck;
  }

  /** The turn on bytes that amounts to nothing sends nothing. */
  lemma TurnIsNothing(c: Config, n: WireNet, t: WT.WireTurn)
    requires NetInv(c, n) && W.InRange(c, n.sys) && !t.SenderTurn?
    requires W.WireInv(c, WT.After(c, n.sys, t)) && W.Abstract(WT.After(c, n.sys, t)) == W.Abstract(n.sys)
    ensures NetInv(c, Happen(c, n, Loop(t)))
    ensures forall m :: Represents(n, m) ==> Represents(Happen(c, n, Loop(t)), m)
  {
    hide WT.After, W.WireInv, Extends, W.Intact;
    var s, s' := n.sys, WT.After(c, n.sys, t);
    TurnExtends(c, s, t);
    if t.EndTurn? {
      ExtendsIntact(s.data, s'.data);
      assert N.Appended(s.data, s'.data) == [];
    } else if t.ReceiverTurn? {
      ExtendsIntact(s.acks, s'.acks);
      assert N.Appended(s.acks, s'.acks) == [];
    }
    ConcatKept(n.dataSent, [], n.acksSent, []);
  }

  lemma HeadIntact<M>(d: W.Datagram<M>, q: seq<W.Datagram<M>>)
    requires d.intact
    ensures W.Intact([d] + q) == [d.msg] + W.Intact(q)
  {
    W.IntactTail([d] + q);
    assert ([d] + q)[1..] == q;
  }

  lemma RepeatKeeps(c: Config, n: WireNet, e: WireEvent)
    requires NetInv(c, n) && !e.Loop?
    ensures W.InRange(c, n.sys) && NetInv(c, Happen(c, n, e))
  {
    hide W.Consistent, W.CarriesMessage, W.CarriesAck, WT.After;
  }

  lemma RepeatRepresents(c: Config, n: WireNet, e: WireEvent, m: N.Net)
    requires NetInv(c, n) && Represents(n, m) && N.NetInRange(c, m) && !e.Loop?
    ensures W.InRange(c, n.sys)
    ensures Represents(Happen(c, n, e), N.Happen(c, m, if e.RepeatData? then N.RepeatData(e.i) else N.RepeatAck(e.i)))
  {
    hide W.Consistent, W.CarriesMessage, W.CarriesAck, WT.After, W.Intact;
    if e.RepeatData? && e.i < |n.dataSent| {
      HeadIntact(n.dataSent[e.i], n.sys.data);
    } else if e.RepeatAck? && e.i < |n.acksSent| {
      HeadIntact(n.acksSent[e.i], n.sys.acks);
    }
  }

  ghost function EventMeaning(c: Config, n: WireNet, e: WireEvent): seq<N.Event>
    requires W.InRange(c, n.sys)
  {
    match e
    case Loop(t) => var meaning := WT.TurnMeaning(c, n.sys, t); if meaning == [] then [] else [N.Loop(meaning[0])]
    case RepeatData(i) => [N.RepeatData(i)]
    case RepeatAck(i) => [N.RepeatAck(i)]
  }

  lemma SameKind(c: Config, s: W.State, t: WT.WireTurn)
    requires W.InRange(c, s)
    ensures var meaning := WT.TurnMeaning(c, s, t);
            if meaning == [] then !t.SenderTurn?
            else
              && (meaning[0].SenderTurn? || meaning[0].EndTurn?) == (t.SenderTurn? || t.EndTurn?)
              && meaning[0].ReceiverTurn? == t.ReceiverTurn?
  {
    hide W.Place, W.Damaged, W.MayDamage, WT.Replies;
  }

  /** What an event on bytes amounts to, in the state and for the pointers read. */
  ghost predicate EventRefines(c: Config, n: WireNet, e: WireEvent, m: N.Net)
    requires W.InRange(c, n.sys) && N.NetInRange(c, m)
  {
    var meaning := EventMeaning(c, n, e);
    && NetInv(c, Happen(c, n, e)) && |meaning| <= 1
    && Represents(Happen(c, n, e), if meaning == [] then m else N.Happen(c, m, meaning[0]))
    && ((e.Loop? && WT.ReadsUnset(c, n.sys, e.turn)) <==>
        (meaning != [] && meaning[0].Loop? && T.ReadsUnset(c, m.sys, meaning[0].turn)))
  }

  lemma EventMeans(c: Config, n: WireNet, e: WireEvent, m: N.Net)
    requires NetInv(c, n) && Represents(n, m) && N.NetInRange(c, m)
    ensures W.InRange(c, n.sys) && EventRefines(c, n, e, m)
  {
    hide WT.After, T.After, W.WireInv, W.Intact, WT.TurnMeaning, WT.ReadsUnset, T.ReadsUnset, Happen, N.Happen;
    WT.InvIsInRange(c, n.sys);
    if e.Loop? {
      WT.TurnRefines(c, n.sys, e.turn);
      WT.UnsetRefines(c, n.sys, e.turn);
      SameKind(c, n.sys, e.turn);
      var meaning := WT.TurnMeaning(c, n.sys, e.turn);
      if meaning == [] {
        TurnIsNothing(c, n, e.turn);
      } else {
        TurnRepresents(c, n, e.turn, m, meaning[0]);
      }
    } else {
      RepeatKeeps(c, n, e);
      RepeatRepresents(c, n, e, m);
    }
  }

  ghost function EventsMeant(c: Config, events: seq<WireEvent>): seq<N.Event>
    requires c.Valid()
  {
    if events == [] then []
    else
      var past := events[..|events| - 1];
      EventsMeant(c, past) + EventMeaning(c, NetRun(c, past), events[|events| - 1])
  }

  lemma NetInitially(c: Config)
    requires c.Valid()
    ensures NetInv(c, NetRun(c, [])) && AllIntact(NetRun(c, []).sys)
    ensures Represents(NetRun(c, []), N.NetRun(c, []))
  {
    W.InitiallyRefines(c);
  }

  /** Every run over the network on bytes, with loss, damage and repetition, ends as
      the run on packets in which a datagram whose damage is noticed is lost. */
  lemma {:induction false} NetRunRefines(c: Config, events: seq<WireEvent>)
    requires c.Valid()
    ensures NetInv(c, NetRun(c, events)) && Represents(NetRun(c, events), N.NetRun(c, EventsMeant(c, events)))
    ensures NetDefined(c, events) <==> N.NetDefined(c, EventsMeant(c, events))
  {
    hide NetInv, Represents, Happen, N.Happen, EventMeaning, WT.ReadsUnset, T.ReadsUnset;
    if events == [] {
      NetInitially(c);
    } else {
      var past, e := events[..|events| - 1], events[|events| - 1];
      NetRunRefines(c, past);
      EventMeans(c, NetRun(c, past), e, N.NetRun(c, EventsMeant(c, past)));
      var meaning := EventMeaning(c, NetRun(c, past), e);
      if meaning == [] {
        assert EventsMeant(c, events) == EventsMeant(c, past);
      } else {
        assert meaning == [meaning[0]];
        N.NetExtend(c, EventsMeant(c, past), meaning[0]);
      }
    }
  }

  predicate DataInOrder(events: seq<WireEvent>) {
    forall i :: 0 <= i < |events| ==> !events[i].RepeatData?
  }

  lemma {:induction false} OrderCarriesOver(c: Config, events: seq<WireEvent>)
    requires c.Valid() && DataInOrder(events)
    ensures AckDisorder.DataInOrder(EventsMeant(c, events))
  {
    hide NetRun, WT.TurnMeaning;
    if events != [] {
      OrderCarriesOver(c, events[..|events| - 1]);
    }
  }

  // ---------------------------------------------------------------------------
  // And every run on packets is one on bytes

  function EventOnWire(n: WireNet, e: N.Event): WireEvent {
    match e
    case Loop(t) => Loop(TurnOnWire(n.sys, t))
    case RepeatData(i) => RepeatData(i)
    case RepeatAck(i) => RepeatAck(i)
  }

  lemma EventOnWireMeans(c: Config, n: WireNet, e: N.Event, m: N.Net)
    requires NetInv(c, n) && AllIntact(n.sys) && Represents(n, m) && N.NetInRange(c, m)
    ensures W.InRange(c, n.sys)
    ensures var n' := Happen(c, n, EventOnWire(n, e));
            NetInv(c, n') && AllIntact(n'.sys) && Represents(n', N.Happen(c, m, e))
    ensures e.Loop? ==>
              (WT.ReadsUnset(c, n.sys, TurnOnWire(n.sys, e.turn)) <==> T.ReadsUnset(c, m.sys, e.turn))
  {
    hide WT.After, T.After, W.WireInv, W.Intact, WT.ReadsUnset, T.ReadsUnset, N.Happen, Fill;
    WT.InvIsInRange(c, n.sys);
    if e.Loop? {
      TurnOnWireMeans(c, n.sys, e.turn);
      WT.TurnRefines(c, n.sys, TurnOnWire(n.sys, e.turn));
      TurnRepresents(c, n, TurnOnWire(n.sys, e.turn), m, e.turn);
    } else {
      hide Represents, NetInv, AllIntact, Happen;
      RepeatKeeps(c, n, EventOnWire(n, e));
      RepeatIntact(c, n, EventOnWire(n, e));
      RepeatRepresents(c, n, EventOnWire(n, e), m);
    }
  }

  lemma RepeatIntact(c: Config, n: WireNet, e: WireEvent)
    requires NetInv(c, n) && AllIntact(n.sys) && !e.Loop?
    ensures W.InRange(c, n.sys) && AllIntact(Happen(c, n, e).sys)
  {
    hide W.Consistent, W.CarriesMessage, W.CarriesAck, WT.After;
  }

  /** Every run over the network on packets is also one on their encodings. */
  lemma {:induction false} EventsOnWire(c: Config, events: seq<N.Event>) returns (wire: seq<WireEvent>)
    requires c.Valid()
    ensures NetInv(c, NetRun(c, wire)) && AllIntact(NetRun(c, wire).sys)
    ensures Represents(NetRun(c, wire), N.NetRun(c, events))
    ensures NetDefined(c, wire) <==> N.NetDefined(c, events)
    ensures AckDisorder.DataInOrder(events) ==> DataInOrder(wire)
  {
    hide NetInv, AllIntact, Represents, Happen, N.Happen, WT.ReadsUnset, T.ReadsUnset, TurnOnWire;
    if events == [] {
      wire := [];
      NetInitially(c);
    } else {
      var past, e := events[..|events| - 1], events[|events| - 1];
      wire := EventsOnWire(c, past);
      var n := NetRun(c, wire);
      EventOnWireMeans(c, n, e, N.NetRun(c, past));
      NetExtend(c, wire, EventOnWire(n, e));
      wire := wire + [EventOnWire(n, e)];
    }
  }

  // ---------------------------------------------------------------------------
  // The limits in bytes

  /** The bytes written by the receiver after a run over the network. */
  ghost function WrittenOver(file: seq<byte>, w: nat, events: seq<WireEvent>): seq<byte>
    requires 1 <= w <= MAX_WINDOW_SIZE
  {
    Concatenated(NetRun(FileConfig(file, w), events).sys.rcv.out)
  }

  lemma RepresentsPrefix(c: Config, file: seq<byte>, n: WireNet, m: N.Net)
    requires Represents(n, m) && c.blocks == Blocks(file) && Safety.WrotePrefix(c, m.sys)
    ensures Concatenated(n.sys.rcv.out) <= file
  {
    PrefixBytes(file, n.sys.rcv.out);
  }

  /** A run that writes something else, over a network that only repeats
      acknowledgements. */
  lemma WrongBytesInOrder(n: nat, w: nat) returns (file: seq<byte>, events: seq<WireEvent>)
    requires 1 <= w <= MAX_WINDOW_SIZE && n > (512 - w) * MAX_PAYLOAD_SIZE
    ensures |file| == n && DataInOrder(events) && NetDefined(FileConfig(file, w), events)
    ensures !(WrittenOver(file, w, events) <= file)
  {
    hide NetRun, NetDefined, N.NetRun, N.NetDefined, Blocks, Concatenated, NetInv, AllIntact;
    var turns;
    file, turns := WrongTurns(n, w);
    var c := FileConfig(file, w);
    N.NothingRepeated(c, turns);
    events := EventsOnWire(c, N.Loops(turns));
  }

  /** With loss and noticed damage in both directions, and acknowledgements that are
      repeated and overtake one another, every file of `n` bytes is received as a
      prefix in every run of the loops if and only if `n` is at most 512 times 512
      less the window. */
  lemma AckOrderBytesLimit(n: nat, w: nat)
    requires 1 <= w <= MAX_WINDOW_SIZE
    ensures (forall file: seq<byte>, events: seq<WireEvent> ::
               |file| == n && DataInOrder(events) && NetDefined(FileConfig(file, w), events) ==>
                 WrittenOver(file, w, events) <= file)
            <==> n <= (512 - w) * MAX_PAYLOAD_SIZE
  {
    if n <= (512 - w) * MAX_PAYLOAD_SIZE {
      forall file: seq<byte>, events: seq<WireEvent> | |file| == n && DataInOrder(events)
        ensures WrittenOver(file, w, events) <= file
      {
        var c, meant := FileConfig(file, w), EventsMeant(FileConfig(file, w), events);
        BlockCount(file, 512 - w);
        NetRunRefines(c, events);
        OrderCarriesOver(c, events);
        AckDisorder.LooseAlways(c, meant);
        AckDisorder.LooseIsPrefix(c, N.NetRun(c, meant).sys);
        RepresentsPrefix(c, file, NetRun(c, events), N.NetRun(c, meant));
      }
    } else {
      var file, events := WrongBytesInOrder(n, w);
    }
  }

  /** Block 0 behind block 255 is no prefix of the marked file. */
  lemma LateBlockBytes(n: nat, out: seq<Block>)
    requires n > 255 * MAX_PAYLOAD_SIZE
    requires var blocks := Blocks(MarkedFile(n, 0));
             |blocks| >= 256 && |out| > 256 && out[..256] == blocks[..256] && out[256] == blocks[0]
    ensures !(Concatenated(out) <= MarkedFile(n, 0))
  {
    hide Blocks, Concatenated, MarkedFile;
    var file := MarkedFile(n, 0);
    BlockAt(file, 0);
    if n <= 256 * MAX_PAYLOAD_SIZE {
      BlockCount(file, 256);
      assert out[..257] == Blocks(file) + [out[256]];
      ConcatenatedAppend(Blocks(file), out[256]);
      ConcatenatedBlocks(file);
      ConcatenatedPrefix(out, 257);
    } else {
      forall i | 0 <= i < 256
        ensures |out[i]| == 512
      {
        assert out[i] == out[..256][i] == Blocks(file)[..256][i];
        BlockAt(file, i);
      }
      ConcatenatedAt(out, 256);
      assert file[512 * 256] == 0;
    }
  }

  lemma {:induction false} ConcatenatedAppend(blocks: seq<Block>, block: Block)
    ensures |Concatenated(blocks + [block])| == |Concatenated(blocks)| + |block|
  {
    if blocks != [] {
      ConcatenatedAppend(blocks[1..], block);
      assert (blocks + [block])[1..] == blocks[1..] + [block];
    } else {
      assert (blocks + [block])[1..] == [];
    }
  }

  /** A late datagram with block 0 is written again. */
  lemma WrongBytesLate(n: nat, w: nat) returns (file: seq<byte>, events: seq<WireEvent>)
    requires 1 <= w <= MAX_WINDOW_SIZE && n > 255 * MAX_PAYLOAD_SIZE
    ensures |file| == n && NetDefined(FileConfig(file, w), events) && !(WrittenOver(file, w, events) <= file)
  {
    hide NetRun, NetDefined, N.NetRun, N.NetDefined, Blocks, Concatenated, NetInv, AllIntact, MarkedFile;
    file := MarkedFile(n, 0);
    var c := FileConfig(file, w);
    BlockAt(file, 255);
    var packets := Unordered.LateRepeat(c);
    events := EventsOnWire(c, packets);
    LateBlockBytes(n, N.NetRun(c, packets).sys.rcv.out);
  }

  /** With loss and noticed damage, and datagrams of both directions that arrive at
      any time and any number of times, every file of `n` bytes is received as a
      prefix in every run of the loops if and only if it has at most 255 blocks. */
  lemma UnorderedBytesLimit(n: nat, w: nat)
    requires 1 <= w <= MAX_WINDOW_SIZE
    ensures (forall file: seq<byte>, events: seq<WireEvent> ::
               |file| == n && NetDefined(FileConfig(file, w), events) ==> WrittenOver(file, w, events) <= file)
            <==> n <= 255 * MAX_PAYLOAD_SIZE
  {
    if n <= 255 * MAX_PAYLOAD_SIZE {
      forall file: seq<byte>, events: seq<WireEvent> | |file| == n
        ensures WrittenOver(file, w, events) <= file
      {
        var c, meant := FileConfig(file, w), EventsMeant(FileConfig(file, w), events);
        BlockCount(file, 255);
        NetRunRefines(c, events);
        Unordered.TameAlways(c, meant);
        RepresentsPrefix(c, file, NetRun(c, events), N.NetRun(c, meant));
      }
    } else {
      var file, events := WrongBytesLate(n, w);
    }
  }

  /** For a file of any length, whatever is lost and whichever damage is noticed, and
      however datagrams are repeated and overtake one another, the bytes written are
      the first bytes of the file as long as blocks are sent when there is room and
      what arrives is in time. */
  lemma PrefixInTime(file: seq<byte>, w: nat, events: seq<WireEvent>)
    requires 1 <= w <= MAX_WINDOW_SIZE
    requires var c := FileConfig(file, w); Timely.RunsInTime(c, EventsMeant(c, events))
    ensures WrittenOver(file, w, events) <= file
  {
    hide NetRun, N.NetRun, EventsMeant, NetInv, Timely.RunsInTime, Blocks;
    var c, meant := FileConfig(file, w), EventsMeant(FileConfig(file, w), events);
    NetRunRefines(c, events);
    Timely.SafeInTime(c, meant);
    RepresentsPrefix(c, file, NetRun(c, events), N.NetRun(c, meant));
  }

  // ---------------------------------------------------------------------------
  // Runs in which nothing is repeated

  function Loops(turns: seq<WT.WireTurn>): (events: seq<WireEvent>)
    ensures |events| == |turns| && forall i :: 0 <= i < |turns| ==> events[i] == Loop(turns[i])
  {
    if turns == [] then [] else Loops(turns[..|turns| - 1]) + [Loop(turns[|turns| - 1])]
  }

  /** A run of the loops on bytes is a run over this network. */
  lemma {:induction false} NothingRepeated(c: Config, turns: seq<WT.WireTurn>)
    requires c.Valid()
    ensures NetRun(c, Loops(turns)).sys == WT.TurnRun(c, turns)
    ensures NetDefined(c, Loops(turns)) <==> WT.Defined(c, turns)
  {
    hide WT.After, WT.ReadsUnset;
    if turns != [] {
      var past := turns[..|turns| - 1];
      NothingRepeated(c, past);
      NetExtend(c, Loops(past), Loop(turns[|turns| - 1]));
    }
  }
}
