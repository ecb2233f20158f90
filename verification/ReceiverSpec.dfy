/** What the receiver does with a data packet, and the unbounded receiver that it
    implements with a ring of slots and 8-bit numbers. */
module ReceiverSpec {
  import opened Bytes
  import opened Common
  import opened Ring

  /** The receiver's variables. The window is the length of the ring, and `out`
      is the list of blocks written to the file so far. */
  datatype Receiver = Receiver(ring: seq<Option<Block>>, index: int, seqExp: int, out: seq<Block>, ended: bool)

  predicate Indexed(r: Receiver) {
    1 <= |r.ring| <= MAX_WINDOW_SIZE && 0 <= r.index < |r.ring| && 0 <= r.seqExp < 256
  }

  predicate Accepted(num: int, seqExp: int, window: int) {
    || (num <= seqExp + window - 1 && num >= seqExp)
    || (seqExp + window - 1 > 256 && num <= (seqExp + window - 1) % 256)
  }

  function AddBuffer(r: Receiver, num: byte, block: Block): (r': Receiver)
    requires Indexed(r)
    ensures Indexed(r') && |r'.ring| == |r.ring|
  {
    if Accepted(num, r.seqExp, |r.ring|) then
      var lifted := if num < r.seqExp then num + 256 else num;
      r.(ring := r.ring[(r.index + (lifted - r.seqExp)) % |r.ring| := Some(block)])
    else
      r
  }

  function Filled(ring: seq<Option<Block>>): (n: nat)
    ensures n <= |ring|
  {
    if ring == [] then 0 else (if ring[0].Some? then 1 else 0) + Filled(ring[1..])
  }

  lemma {:induction false} FilledAfterClear(ring: seq<Option<Block>>, i: nat)
    requires i < |ring| && ring[i].Some?
    ensures Filled(ring[i := None]) == Filled(ring) - 1
  {
    if i > 0 {
      assert ring[i := None][1..] == ring[1..][i - 1 := None];
      FilledAfterClear(ring[1..], i - 1);
    } else {
      assert ring[0 := None][1..] == ring[1..];
    }
  }

  /** One turn of the drain loop: write the slot at `index`, clear it, step on. */
  function Advance(r: Receiver): (r': Receiver)
    requires Indexed(r) && r.ring[r.index].Some?
    ensures Indexed(r') && Filled(r'.ring) < Filled(r.ring)
  {
    FilledAfterClear(r.ring, r.index);
    r.(out := r.out + [r.ring[r.index].value], ring := r.ring[r.index := None],
       index := (r.index + 1) % |r.ring|, seqExp := (r.seqExp + 1) % 256)
  }

  function Drain(r: Receiver): (r': Receiver)
    requires Indexed(r)
    ensures Indexed(r') && |r'.ring| == |r.ring| && r'.ring[r'.index].None?
    decreases Filled(r.ring)
  {
    if r.ring[r.index].None? then r else Drain(Advance(r))
  }

  function Receive(r: Receiver, num: byte, block: Block): (r': Receiver)
    requires Indexed(r)
    ensures Indexed(r') && |r'.ring| == |r.ring|
  {
    Drain(AddBuffer(r, num, block))
  }

  // ---------------------------------------------------------------------------
  // The unbounded receiver

  /** It keeps blocks under their absolute numbers and never reduces a number. */
  datatype Ideal = Ideal(out: seq<Block>, pending: map<nat, Block>)

  function IdealDrain(u: Ideal): Ideal
    decreases |u.pending|
  {
    if |u.out| in u.pending then IdealDrain(IdealAdvance(u)) else u
  }

  function IdealAdvance(u: Ideal): (v: Ideal)
    requires |u.out| in u.pending
    ensures |v.pending| < |u.pending|
  {
    var rest := map a | a in u.pending && a != |u.out| :: u.pending[a];
    assert rest.Keys == u.pending.Keys - {|u.out|};
    assert |rest.Keys| < |u.pending.Keys|;
    Ideal(u.out + [u.pending[|u.out|]], rest)
  }

  function IdealReceive(u: Ideal, a: nat, block: Block, w: nat): Ideal {
    if |u.out| <= a < |u.out| + w then IdealDrain(u.(pending := u.pending[a := block])) else u
  }

  /** The drain goes on exactly to the first missing number, writes exactly the
      blocks before it, and keeps exactly the ones behind it. */
  lemma {:induction false} IdealDrainExact(u: Ideal)
    ensures var v := IdealDrain(u);
            && |u.out| <= |v.out| && v.out[..|u.out|] == u.out
            && |v.out| !in u.pending
            && (forall a :: |u.out| <= a < |v.out| ==> a in u.pending && v.out[a] == u.pending[a])
            && v.pending == map a | a in u.pending && !(|u.out| <= a < |v.out|) :: u.pending[a]
    decreases |u.pending|
  {
    if |u.out| in u.pending {
      var s, v := IdealAdvance(u), IdealDrain(u);
      IdealDrainExact(s);
      assert v.out[..|u.out|] == v.out[..|s.out|][..|u.out|];
      assert v.out[|u.out|] == v.out[..|s.out|][|u.out|] == u.pending[|u.out|];
      forall a | |u.out| <= a < |v.out|
        ensures a in u.pending && v.out[a] == u.pending[a]
      {
        if a != |u.out| {
          assert a in s.pending && v.out[a] == s.pending[a];
        }
      }
    }
  }

  // ---------------------------------------------------------------------------
  // The ring and the wrapped numbers implement it

  predicate Valid(r: Receiver) {
    && 1 <= |r.ring| <= MAX_WINDOW_SIZE
    && r.index == Slot(|r.out|, |r.ring|)
    && r.seqExp == |r.out| % 256
  }

  /** The absolute numbers of the filled slots and what they hold. */
  function Pending(r: Receiver): map<nat, Block>
    requires |r.ring| > 0
  {
    map a: nat | |r.out| <= a < |r.out| + |r.ring| && r.ring[Slot(a, |r.ring|)].Some? :: r.ring[Slot(a, |r.ring|)].value
  }

  function Abstract(r: Receiver): Ideal
    requires |r.ring| > 0
  {
    Ideal(r.out, Pending(r))
  }

  /** The one number in the window that the second test of `add_buffer` leaves
      out: 0, when the last number of the window is exactly 256. */
  predicate WrapPoint(a: nat, n: nat, w: nat) {
    n % 256 + w - 1 == 256 && a == n + w - 1
  }

  /** The window test on 8-bit numbers says what it should about absolute ones. */
  lemma AcceptedIffInWindow(a: nat, n: nat, w: nat)
    requires 1 <= w <= MAX_WINDOW_SIZE && n + w <= a + 256 && a < n + 256
    ensures Accepted(a % 256, n % 256, w) <==> n <= a < n + w && !WrapPoint(a, n, w)
    ensures n <= a < n + w ==> (if a % 256 < n % 256 then a % 256 + 256 else a % 256) - n % 256 == a - n
  {
  }

  lemma AddBufferRefines(r: Receiver, a: nat, block: Block)
    requires Valid(r) && |r.out| + |r.ring| <= a + 256 && a < |r.out| + 256
    ensures var r', n, w := AddBuffer(r, a % 256, block), |r.out|, |r.ring|;
            && Valid(r') && |r'.ring| == w && r'.out == r.out && r'.ended == r.ended
            && Pending(r') == if n <= a < n + w && !WrapPoint(a, n, w) then Pending(r)[a := block] else Pending(r)
  {
    hide Slot;
    var n, w := |r.out|, |r.ring|;
    AcceptedIffInWindow(a, n, w);
    if n <= a < n + w && !WrapPoint(a, n, w) {
      SlotAdd(n, a - n, w);
      var r' := AddBuffer(r, a % 256, block);
      assert r'.ring == r.ring[Slot(a, w) := Some(block)];
      forall b: nat | n <= b < n + w && b != a
        ensures r'.ring[Slot(b, w)] == r.ring[Slot(b, w)]
      {
        if Slot(a, w) == Slot(b, w) {
          SlotInjective(if a < b then a else b, if a < b then b else a, w);
        }
      }
    }
  }

  lemma AdvanceRefines(r: Receiver)
    requires Valid(r) && r.ring[r.index].Some?
    ensures var r' := Advance(r);
            && Valid(r') && |r'.ring| == |r.ring| && r'.ended == r.ended
            && |r.out| in Pending(r) && Abstract(r') == IdealAdvance(Abstract(r))
  {
    hide Slot, Pending, Valid, Filled, Advance;
    AdvanceStaysValid(r);
    PendingAfterAdvance(r);
  }

  lemma AdvanceStaysValid(r: Receiver)
    requires Valid(r) && r.ring[r.index].Some?
    ensures var r' := Advance(r);
            && Valid(r') && |r'.ring| == |r.ring| && r'.ended == r.ended
            && r'.out == r.out + [r.ring[r.index].value]
  {
    hide Slot, Filled;
    SlotAdd(|r.out|, 1, |r.ring|);
    ModAdd(|r.out|, 1, 256);
  }

  /** Clearing the slot at `index` also prepares it for the number that enters
      the window. */
  lemma PendingAfterAdvance(r: Receiver)
    requires Valid(r) && r.ring[r.index].Some?
    ensures |r.out| in Pending(r) && Pending(r)[|r.out|] == r.ring[r.index].value
    ensures Pending(Advance(r)) == map a | a in Pending(r) && a != |r.out| :: Pending(r)[a]
  {
    hide Slot;
    var n, w, r' := |r.out|, |r.ring|, Advance(r);
    SlotWraps(n, w);
    forall b: nat | n < b < n + w
      ensures r'.ring[Slot(b, w)] == r.ring[Slot(b, w)]
    {
      if Slot(n, w) == Slot(b, w) {
        SlotInjective(n, b, w);
      }
    }
  }

  lemma {:induction false} DrainRefines(r: Receiver)
    requires Valid(r)
    ensures var r' := Drain(r);
            && Valid(r') && |r'.ring| == |r.ring| && r'.ended == r.ended && r'.ring[r'.index].None?
            && Abstract(r') == IdealDrain(Abstract(r))
    decreases Filled(r.ring)
  {
    hide Slot;
    if r.ring[r.index].Some? {
      AdvanceRefines(r);
      DrainRefines(Advance(r));
    }
  }

  /** Whatever arrives, index and expected number stay those of the blocks
      written. */
  lemma ReceiveStaysValid(r: Receiver, num: nat, x: Block)
    requires Valid(r) && num < 256
    ensures Valid(Receive(r, num, x))
  {
    hide Slot;
    DrainRefines(AddBuffer(r, num, x));
  }

  /** The drain writes the filled slots from `index` on, stops in front of the
      first empty one, takes at most one turn round the ring, and then expects the
      number of blocks written so far. */
  lemma DrainExact(r: Receiver)
    requires Valid(r)
    ensures var r', n, w := Drain(r), |r.out|, |r.ring|;
            && n <= |r'.out| <= n + w && r'.out[..n] == r.out
            && (forall a :: n <= a < |r'.out| ==> r.ring[Slot(a, w)] == Some(r'.out[a]))
            && (|r'.out| < n + w ==> r.ring[Slot(|r'.out|, w)].None?)
            && r'.ring[r'.index].None? && r'.index == Slot(|r'.out|, w) && r'.seqExp == |r'.out| % 256
  {
    hide Slot, Drain;
    var r', n, w := Drain(r), |r.out|, |r.ring|;
    DrainRefines(r);
    IdealDrainExact(Abstract(r));
    assert n + w !in Pending(r);
    forall a | n <= a < |r'.out|
      ensures r.ring[Slot(a, w)] == Some(r'.out[a])
    {
      assert a in Pending(r);
    }
  }

  /** Away from the wrap point the receiver does exactly what the unbounded one
      does; at the wrap point it does nothing. */
  lemma ReceiveRefines(r: Receiver, a: nat, block: Block)
    requires Valid(r) && r.ring[r.index].None? && |r.out| + |r.ring| <= a + 256 && a < |r.out| + 256
    ensures var r' := Receive(r, a % 256, block);
            && Valid(r') && |r'.ring| == |r.ring| && r'.ended == r.ended && r'.ring[r'.index].None?
            && Abstract(r') == if WrapPoint(a, |r.out|, |r.ring|) then Abstract(r)
                               else IdealReceive(Abstract(r), a, block, |r.ring|)
  {
    hide Slot;
    AddBufferRefines(r, a, block);
    DrainRefines(AddBuffer(r, a % 256, block));
    assert |r.out| !in Pending(r);
  }

  /** Nothing of the receiver is lost in the abstraction. */
  lemma AbstractInjective(r: Receiver, s: Receiver)
    requires Valid(r) && Valid(s) && |r.ring| == |s.ring| && r.ended == s.ended && Abstract(r) == Abstract(s)
    ensures r == s
  {
    hide Slot;
    forall i | 0 <= i < |r.ring|
      ensures r.ring[i] == s.ring[i]
    {
      var a := SlotOnto(i, |r.out|, |r.ring|);
      assert a in Pending(r) <==> a in Pending(s);
    }
  }
}
