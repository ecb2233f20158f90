/** The order in which packets of one window arrive, and how often, does not
    matter to the receiver, except at the wrap point. */
module ReceiverOrder {
  import opened Common
  import opened Ring
  import opened ReceiverSpec

  /** If `a` is already pending, it is pending with this block. */
  predicate Fits(u: Ideal, a: nat, x: Block) {
    a in u.pending ==> u.pending[a] == x
  }

  function Put(u: Ideal, a: nat, x: Block): Ideal {
    u.(pending := u.pending[a := x])
  }

  /** A block that comes after the drain leads to the same end as one that comes
      before it. */
  lemma {:induction false} DrainAbsorbs(u: Ideal, b: nat, y: Block)
    requires |u.out| <= b && Fits(u, b, y)
    ensures var v := IdealDrain(u);
            IdealDrain(Put(u, b, y)) == if b < |v.out| then v else IdealDrain(Put(v, b, y))
    decreases |u.pending|
  {
    if |u.out| in u.pending {
      if b == |u.out| {
        assert Put(u, b, y) == u;
        IdealDrainExact(u);
      } else {
        assert IdealAdvance(Put(u, b, y)) == Put(IdealAdvance(u), b, y);
        DrainAbsorbs(IdealAdvance(u), b, y);
      }
    }
  }

  lemma IdealPair(u: Ideal, a: nat, x: Block, b: nat, y: Block, w: nat)
    requires |u.out| <= a < |u.out| + w && |u.out| <= b < |u.out| + w
    requires Fits(u, a, x) && Fits(u, b, y) && (a == b ==> x == y)
    ensures IdealReceive(IdealReceive(u, a, x, w), b, y, w) == IdealDrain(Put(Put(u, a, x), b, y))
  {
    IdealDrainExact(Put(u, a, x));
    DrainAbsorbs(Put(u, a, x), b, y);
  }

  predicate Ready(r: Receiver) {
    Valid(r) && r.ring[r.index].None?
  }

  lemma WindowMovesAtMostByItself(r: Receiver, a: nat, x: Block)
    requires Ready(r) && |r.out| <= a < |r.out| + |r.ring|
    ensures var r' := Receive(r, a % 256, x);
            |r.out| <= |r'.out| <= |r.out| + |r.ring| && (|r.out| != a ==> |r'.out| == |r.out|)
  {
    hide Slot, Receive, Pending, WrapPoint;
    var n, w := |r.out|, |r.ring|;
    var u := Put(Abstract(r), a, x);
    PendingBounds(r);
    ReceiveRefines(r, a, x);
    IdealDrainExact(u);
    assert n + w !in u.pending && (a != n ==> n !in u.pending);
    assert IdealDrain(u).out[..n] == r.out;
  }

  lemma PendingBounds(r: Receiver)
    requires Ready(r)
    ensures |r.out| !in Pending(r) && forall a :: a in Pending(r) ==> |r.out| < a < |r.out| + |r.ring|
  {
  }

  lemma TwoReceives(r: Receiver, a: nat, x: Block, b: nat, y: Block)
    requires Ready(r) && |r.out| <= a < |r.out| + |r.ring| && |r.out| <= b < |r.out| + |r.ring|
    requires !WrapPoint(a, |r.out|, |r.ring|) && !WrapPoint(b, |r.out|, |r.ring|)
    ensures var s := Receive(Receive(r, a % 256, x), b % 256, y);
            && Ready(s) && |s.ring| == |r.ring| && s.ended == r.ended
            && Abstract(s) == IdealReceive(IdealReceive(Abstract(r), a, x, |r.ring|), b, y, |r.ring|)
  {
    hide Slot, Receive, IdealReceive, Abstract;
    ReceiveRefines(r, a, x);
    WindowMovesAtMostByItself(r, a, x);
    ReceiveRefines(Receive(r, a % 256, x), b, y);
  }

  lemma PutsCommute(u: Ideal, a: nat, x: Block, b: nat, y: Block)
    requires a == b ==> x == y
    ensures Put(Put(u, a, x), b, y) == Put(Put(u, b, y), a, x)
  {
  }

  /** Two packets of the window, away from the wrap point, may arrive in either
      order: output, ring, index and expected number come out the same. */
  lemma ReceiveCommutes(r: Receiver, a: nat, x: Block, b: nat, y: Block)
    requires Ready(r) && |r.out| <= a < |r.out| + |r.ring| && |r.out| <= b < |r.out| + |r.ring|
    requires !WrapPoint(a, |r.out|, |r.ring|) && !WrapPoint(b, |r.out|, |r.ring|)
    requires Fits(Abstract(r), a, x) && Fits(Abstract(r), b, y) && (a == b ==> x == y)
    ensures Receive(Receive(r, a % 256, x), b % 256, y) == Receive(Receive(r, b % 256, y), a % 256, x)
  {
    hide Slot, Receive, IdealReceive, Pending, WrapPoint, IdealDrain;
    TwoReceives(r, a, x, b, y);
    TwoReceives(r, b, y, a, x);
    IdealPair(Abstract(r), a, x, b, y, |r.ring|);
    IdealPair(Abstract(r), b, y, a, x, |r.ring|);
    PutsCommute(Abstract(r), a, x, b, y);
    AbstractInjective(Receive(Receive(r, a % 256, x), b % 256, y), Receive(Receive(r, b % 256, y), a % 256, x));
  }

  /** A packet that arrives a second time changes nothing. */
  lemma ReceiveIdempotent(r: Receiver, a: nat, x: Block)
    requires Ready(r) && |r.out| <= a < |r.out| + |r.ring| && Fits(Abstract(r), a, x)
    ensures Receive(Receive(r, a % 256, x), a % 256, x) == Receive(r, a % 256, x)
  {
    hide Slot, Receive, IdealReceive, Pending;
    var s := Receive(r, a % 256, x);
    ReceiveRefines(r, a, x);
    if WrapPoint(a, |r.out|, |r.ring|) {
      AbstractInjective(r, s);
    } else {
      TwoReceives(r, a, x, a, x);
      IdealPair(Abstract(r), a, x, a, x, |r.ring|);
      SamePutTwice(r, a, x);
      AbstractInjective(Receive(s, a % 256, x), s);
    }
  }

  lemma SamePutTwice(r: Receiver, a: nat, x: Block)
    requires |r.ring| > 0 && |r.out| <= a < |r.out| + |r.ring|
    ensures IdealDrain(Put(Put(Abstract(r), a, x), a, x)) == IdealReceive(Abstract(r), a, x, |r.ring|)
  {
    hide Slot, Pending, IdealDrain;
    assert Put(Put(Abstract(r), a, x), a, x) == Put(Abstract(r), a, x);
  }

  /** At the wrap point the order matters exactly when the other packet is the
      one the receiver waits for: behind it the wrapped number 0 is stored,
      before it the same packet is refused. */
  lemma WrapPointOrder(r: Receiver, a: nat, x: Block, b: nat, y: Block)
    requires Ready(r) && WrapPoint(b, |r.out|, |r.ring|) && b !in Pending(r) && |r.out| <= a < b
    ensures Receive(Receive(r, b % 256, y), a % 256, x) == Receive(r, a % 256, x)
    ensures Receive(Receive(r, a % 256, x), b % 256, y) == Receive(Receive(r, b % 256, y), a % 256, x) <==> a != |r.out|
  {
    hide Slot, Receive, Pending;
    var n, w := |r.out|, |r.ring|;
    var s, t := Receive(r, a % 256, x), Receive(r, b % 256, y);
    ReceiveRefines(r, b, y);
    AbstractInjective(r, t);
    ReceiveRefines(r, a, x);
    WindowMovesAtMostByItself(r, a, x);
    ReceiveRefines(s, b, y);
    IdealDrainExact(Put(Abstract(r), a, x));
    if a != n {
      AbstractInjective(s, Receive(s, b % 256, y));
    } else {
      assert b !in Put(Abstract(r), a, x).pending;
      assert |s.out| <= b && b !in Abstract(s).pending;
      IdealDrainExact(Put(Abstract(s), b, y));
      var q := Receive(s, b % 256, y);
      assert b < |q.out| || b in Abstract(q).pending;
    }
  }
}
