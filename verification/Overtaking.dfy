/** Acknowledgements that overtake one another: what they do to the position of the
    sender's timer. */
module Overtaking {
  import opened Common
  import opened Ring
  import opened Protocol
  import opened Turns
  import opened UnsetPointer
  import opened Network
  import S = SenderSpec
  import R = ReceiverSpec

  predicate NumbersTrue(q: seq<Ack>) {
    forall i :: 0 <= i < |q| ==> q[i].num == q[i].origin % 256
  }

  /** Number and position of the sender are those of `base`, the number of places
      that its window was moved in all. */
  predicate Slid(c: Config, s: System) {
    && Rings(c, s) && R.Valid(s.rcv) && NumbersTrue(s.acks)
    && s.snd.smallSeq == s.base % 256 && s.snd.smallInd == Slot(s.base, s.snd.window)
    && (s.snd.window != c.w ==> s.base == 0)
  }

  lemma SlideAny(snd: S.Sender, base: nat, num: nat, w: nat)
    requires S.InRange(snd) && snd.window <= w <= MAX_WINDOW_SIZE && (snd.window == w || base == 0) && num < 256
    requires snd.smallSeq == base % 256 && snd.smallInd == Slot(base, snd.window)
    ensures var t, base' := S.Acknowledge(snd, num, w), base + Distance(snd.smallSeq, num);
            t.window == w && t.smallSeq == num == base' % 256 && t.smallInd == Slot(base', w)
  {
    hide Slot, Distance;
    DistanceReaches(base, num);
    SlotAdd(base, Distance(snd.smallSeq, num), w);
    if base == 0 {
      SlotSmall(0, snd.window);
      SlotSmall(0, w);
    }
  }

  lemma DistanceReaches(base: nat, num: nat)
    requires num < 256
    ensures (base + Distance(base % 256, num)) % 256 == num
  {
  }

  lemma SlidDeliver(c: Config, s: System)
    requires Slid(c, s) && Enabled(c, s, DeliverData)
    ensures Slid(c, Step(c, s, DeliverData)) && Step(c, s, DeliverData).base == s.base
  {
    RingsStep(c, s, DeliverData);
    hide Slot, Rings, R.Receive;
    if s.data[0].Data? {
      R.ReceiveStaysValid(s.rcv, s.data[0].num, s.data[0].block);
    }
  }

  lemma SlidTake(c: Config, s: System)
    requires Slid(c, s) && Enabled(c, s, DeliverAck)
    ensures Slid(c, Step(c, s, DeliverAck)) && Step(c, s, DeliverAck).snd.window == c.w
    ensures Step(c, s, DeliverAck).base == s.base + Distance(s.snd.smallSeq, s.acks[0].num)
  {
    RingsStep(c, s, DeliverAck);
    RingsAllow(c, s);
    RingsWindow(c, s);
    hide Slot, Rings, S.Acknowledge;
    SlideAny(s.snd, s.base, s.acks[0].num, c.w);
  }

  lemma RingsWindow(c: Config, s: System)
    requires Rings(c, s)
    ensures InRange(c, s) && s.snd.window <= c.w <= MAX_WINDOW_SIZE
  {
  }

  lemma SlidOther(c: Config, s: System, a: Action)
    requires Slid(c, s) && Enabled(c, s, a) && !a.DeliverData? && !a.DeliverAck?
    ensures Slid(c, Step(c, s, a)) && Step(c, s, a).base == s.base
  {
    RingsStep(c, s, a);
    hide Slot, Rings, S.Oldest, S.LatestIn;
    if a.SendBlock? {
      SendGives(s.snd, c.blocks[s.snd.seqInd]);
    }
  }

  lemma SlidStep(c: Config, s: System, a: Action)
    requires Slid(c, s)
    ensures InRange(c, s) && Slid(c, Step(c, s, a))
    ensures Step(c, s, a).base ==
            if a.DeliverAck? && s.acks != [] && s.phase != Ending then s.base + Distance(s.snd.smallSeq, s.acks[0].num)
            else s.base
    ensures a.DeliverAck? && s.acks != [] && s.phase != Ending ==> Step(c, s, a).snd.window == c.w
    ensures s.snd.window == c.w ==> Step(c, s, a).snd.window == c.w
  {
    RingsWindow(c, s);
    hide Slid, Step, Enabled, Distance, Slot;
    if !Enabled(c, s, a) {
      NothingHappens(c, s, a);
      if a.DeliverAck? {
        NotEnabledTake(c, s);
      }
    } else if a.DeliverData? {
      SlidDeliver(c, s);
      WindowStays(c, s, a);
    } else if a.DeliverAck? {
      EnabledTake(c, s);
      SlidTake(c, s);
    } else {
      SlidOther(c, s, a);
      WindowStays(c, s, a);
    }
  }

  lemma NothingHappens(c: Config, s: System, a: Action)
    requires InRange(c, s) && !Enabled(c, s, a)
    ensures Step(c, s, a) == s
  {
  }

  lemma EnabledTake(c: Config, s: System)
    requires InRange(c, s) && Enabled(c, s, DeliverAck)
    ensures s.acks != [] && s.phase != Ending
  {
  }

  lemma NotEnabledTake(c: Config, s: System)
    requires InRange(c, s) && !Enabled(c, s, DeliverAck)
    ensures s.acks == [] || s.phase == Ending
  {
  }

  lemma WindowStays(c: Config, s: System, a: Action)
    requires InRange(c, s) && !(a.DeliverAck? && Enabled(c, s, a))
    ensures Step(c, s, a).snd.window == s.snd.window
  {
    hide S.MayRead, S.Oldest, R.Receive;
  }

  lemma FileKeeps(c: Config, s: System, a: Action)
    requires InRange(c, s) && s.phase == Reading && (a.SendBlock? || a.ReadEnd?)
    ensures var s' := Step(c, s, a); s'.acks == s.acks && s'.phase != Ending && s'.snd.smallSeq == s.snd.smallSeq
  {
    hide S.MayRead, Slot;
  }

  /** A turn moves the window by the distance to the acknowledgement that it takes,
      and not at all if it takes none. */
  lemma SlidTurn(c: Config, s: System, t: Turn)
    requires Slid(c, s)
    ensures InRange(c, s) && Slid(c, After(c, s, t))
    ensures After(c, s, t).base == if Takes(s, t) then s.base + Distance(s.snd.smallSeq, s.acks[0].num) else s.base
    ensures Takes(s, t) || s.snd.window == c.w ==> After(c, s, t).snd.window == c.w
  {
    RingsWindow(c, s);
    hide Slid, Step, After, Distance, Slot, S.MayRead;
    if !t.SenderTurn? {
      OtherTurnIs(c, s, t);
      SlidStep(c, s, OnlyStep(t));
    } else if s.phase != Reading {
      NoTurn(c, s, t.arrives);
    } else {
      SenderTurnIs(c, s, t.arrives);
      var second := if Takes(s, t) then DeliverAck else Resend;
      if S.MayRead(s.snd) {
        var first := if s.Next() < |c.blocks| then SendBlock else ReadEnd;
        FileKeeps(c, s, first);
        SlidStep(c, s, first);
        SlidStep(c, Step(c, s, first), second);
        SlidStep(c, Step(c, Step(c, s, first), second), LeaveLoop);
      } else {
        SlidStep(c, s, second);
      }
    }
  }

  // ---------------------------------------------------------------------------
  // Over whole runs

  /** `base` is the block last acknowledged, and a number of turns of 256. */
  predicate NetSlid(c: Config, n: Net) {
    && Slid(c, n.sys) && NumbersTrue(n.acksSent)
    && n.sys.base == n.acked + 256 * n.slips && (n.sys.snd.window != c.w ==> n.acked == 0)
  }

  lemma StillNumbered(sent: seq<Ack>, before: seq<Ack>, after: seq<Ack>)
    requires NumbersTrue(sent) && NumbersTrue(after)
    ensures NumbersTrue(sent + Appended(before, after)) && NumbersTrue(sent + [])
  {
    var added := Appended(before, after);
    forall i | 0 <= i < |sent + added|
      ensures (sent + added)[i].num == (sent + added)[i].origin % 256
    {
      if i < |sent| {
        assert (sent + added)[i] == sent[i];
      } else {
        assert (sent + added)[i] == added[i - |sent|] == after[|before| + (i - |sent|)];
      }
    }
    assert sent + [] == sent;
  }

  /** Taking block `k` after block `acked` moves the window to `k`, and once round
      for every 256 that it falls back. */
  lemma SlipArithmetic(base: nat, acked: nat, slips: int, k: nat)
    requires base == acked + 256 * slips
    ensures base + Distance(base % 256, k % 256) == k + 256 * Slipped(slips, acked, k)
    ensures -256 < k - acked < 256 ==> Slipped(slips, acked, k) == if k < acked then slips + 1 else slips
  {
    SameResidue(acked, slips, base);
    ResidueDifference(acked, k);
    var x := k - acked;
    assert x == 256 * (x / 256) + x % 256;
  }

  lemma SameResidue(a: nat, m: int, b: nat)
    requires b == a + 256 * m
    ensures b % 256 == a % 256
  {
  }

  lemma ResidueDifference(a: nat, k: nat)
    ensures (k % 256 - a % 256) % 256 == (k - a) % 256
  {
    var p, q := k / 256, a / 256;
    assert k - a == 256 * (p - q) + (k % 256 - a % 256);
  }

  lemma NetSlidTurn(c: Config, n: Net, t: Turn)
    requires NetInRange(c, n) && NetSlid(c, n)
    ensures NetSlid(c, Happen(c, n, Loop(t)))
  {
    SlidTurn(c, n.sys, t);
    SlidGives(c, n.sys);
    SlidGives(c, After(c, n.sys, t));
    StillNumbered(n.acksSent, n.sys.acks, After(c, n.sys, t).acks);
    hide Slid, After, Distance, NumbersTrue, Slipped;
    if Takes(n.sys, t) {
      FirstNumber(n.sys.acks);
      SlipArithmetic(n.sys.base, n.acked, n.slips, n.sys.acks[0].origin);
    } else {
      SlipArithmetic(n.sys.base, n.acked, n.slips, n.acked);
    }
  }

  lemma SlidGives(c: Config, s: System)
    requires Slid(c, s)
    ensures NumbersTrue(s.acks) && s.snd.smallSeq == s.base % 256
  {
  }

  lemma FirstNumber(q: seq<Ack>)
    requires NumbersTrue(q) && q != []
    ensures q[0].num == q[0].origin % 256
  {
  }

  lemma NetSlidRepeat(c: Config, n: Net, e: Event)
    requires NetRings(c, n) && NetSlid(c, n) && !e.Loop?
    ensures NetInRange(c, n) && NetSlid(c, Happen(c, n, e))
  {
    NetRingsHappen(c, n, e);
    hide Rings, After, Slot, R.Valid;
    if e.RepeatAck? && e.i < |n.acksSent| {
      assert n.acksSent[e.i].num == n.acksSent[e.i].origin % 256;
    }
  }

  lemma {:induction false} NetSlidAlways(c: Config, events: seq<Event>)
    requires c.Valid()
    ensures NetSlid(c, NetRun(c, events)) && NetRings(c, NetRun(c, events))
  {
    NetRingsAlways(c, events);
    if events == [] {
      SlotSmall(0, c.w);
    } else {
      hide NetSlid, Happen, NetRings;
      var past, e := events[..|events| - 1], events[|events| - 1];
      NetSlidAlways(c, past);
      if e.Loop? {
        NetSlidTurn(c, NetRun(c, past), e.turn);
      } else {
        NetSlidRepeat(c, NetRun(c, past), e);
      }
    }
  }

  // ---------------------------------------------------------------------------
  // The position of the timer

  /** A shift keeps the place on a ring exactly if it is a number of whole turns. */
  lemma ShiftKeepsSlotIff(a: nat, x: int, w: nat)
    requires w > 0 && a + x >= 0
    ensures Slot(a + x, w) == Slot(a, w) <==> x % w == 0
  {
    var i, j := a % w, x % w;
    var q := a / w + x / w;
    assert a == (a / w) * w + i && x == (x / w) * w + j;
    assert a + x == q * w + (i + j);
    if i + j < w {
      SlotUnique(a + x, w, q, i + j);
    } else {
      assert a + x == (q + 1) * w + (i + j - w);
      SlotUnique(a + x, w, q + 1, i + j - w);
    }
  }

  /** Whatever the network repeats, the timer's slot is that of the block last
      acknowledged exactly if the window divides the 256 places of every slip; with
      the window 3 of the code, if the slips are a multiple of 3. */
  lemma TimerSlotIff(c: Config, events: seq<Event>)
    requires c.Valid()
    ensures var n := NetRun(c, events);
            && n.sys.snd.smallSeq == n.acked % 256
            && (n.sys.snd.smallInd == Slot(n.acked, n.sys.snd.window) <==> 256 * n.slips % c.w == 0)
  {
    NetSlidAlways(c, events);
    var n := NetRun(c, events);
    hide NetRun, Rings, Slot, R.Valid;
    SameResidue(n.acked, n.slips, n.sys.base);
    if n.sys.snd.window == c.w {
      ShiftKeepsSlotIff(n.acked, 256 * n.slips, c.w);
    } else {
      assert 256 * n.slips == 0;
    }
  }

  /** And if that block is outstanding, the timer resends it under just this
      condition. */
  lemma TimerResendsAckedIff(c: Config, events: seq<Event>)
    requires c.Valid()
    requires var n := NetRun(c, events); n.acked < n.sys.Next() <= n.acked + n.sys.snd.window
    ensures var n := NetRun(c, events);
            var snd := n.sys.snd;
            S.Oldest(snd).Some? && S.LatestIn(snd.smallInd, snd.seqInd, snd.window) == n.acked <==>
              256 * n.slips % c.w == 0
  {
    TimerSlotIff(c, events);
    NetRingsAlways(c, events);
    var n := NetRun(c, events);
    hide NetRun, Slot, S.LatestIn, S.Oldest, R.Indexed;
    var snd := n.sys.snd;
    S.OldestIs(snd, c.blocks, c.w);
    S.OldestMissingIff(snd, c.blocks, c.w);
    if S.Oldest(snd).Some? {
      S.LatestInSlot(snd.smallInd, snd.seqInd, snd.window);
    }
  }
}
