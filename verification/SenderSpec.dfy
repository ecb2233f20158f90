/** What the sender's loop does to its variables. */
module SenderSpec {
  import opened Bytes
  import opened Common
  import opened Ring

  /** A packet kept for retransmission. */
  datatype Stored = Stored(num: byte, window: int, block: Block)

  /** The sender's variables. `started` is set once the first block is read, and
      `seqInd` counts the blocks sent; it is never reduced. */
  datatype Sender = Sender(window: int, smallSeq: int, smallInd: int, seqExp: int, seqInd: nat,
                           started: bool, buffer: seq<Option<Stored>>)

  const INITIAL := Sender(1, 0, 0, 0, 0, false, Nones(MAX_WINDOW_SIZE))

  predicate InRange(s: Sender) {
    && |s.buffer| == MAX_WINDOW_SIZE && 1 <= s.window <= MAX_WINDOW_SIZE
    && 0 <= s.smallSeq < 256 && 0 <= s.smallInd < s.window && 0 <= s.seqExp < 256
  }

  /** Every packet kept can be encoded, and none is empty. */
  predicate Sendable(slots: seq<Option<Stored>>) {
    forall i :: 0 <= i < |slots| && slots[i].Some? ==>
      0 <= slots[i].value.window <= MAX_WINDOW_SIZE && 1 <= |slots[i].value.block| <= MAX_PAYLOAD_SIZE
  }

  /** The test that lets the sender read on: a plain difference of two numbers
      that wrap at 256. */
  predicate MayRead(s: Sender) {
    !s.started || s.seqExp - s.smallSeq < s.window
  }

  /** What that test means to ask: is there room for one more packet between the
      oldest unacknowledged number and the next one? */
  predicate HasRoom(s: Sender) {
    Distance(s.smallSeq, s.seqExp) < s.window
  }

  /** Send a new block. */
  function Send(s: Sender, block: Block): (s': Sender)
    requires InRange(s)
    ensures InRange(s')
  {
    s.(buffer := s.buffer[Slot(s.seqInd, s.window) := Some(Stored(s.seqExp, s.window, block))],
       seqExp := (s.seqExp + 1) % 256, seqInd := s.seqInd + 1, started := true)
  }

  /** Slide the window to the acknowledged number: both positions move by the
      same number of places. */
  function Slide(s: Sender, num: byte): (s': Sender)
    requires InRange(s)
    ensures InRange(s')
  {
    s.(smallSeq := num, smallInd := (s.smallInd + Distance(s.smallSeq, num)) % s.window)
  }

  /** The window only ever grows. */
  function Grow(s: Sender, window: int): (s': Sender)
    requires InRange(s) && window <= MAX_WINDOW_SIZE
    ensures InRange(s')
  {
    if window > s.window then s.(window := window) else s
  }

  /** Process an acknowledgement. */
  function Acknowledge(s: Sender, num: byte, window: int): (s': Sender)
    requires InRange(s) && window <= MAX_WINDOW_SIZE
    ensures InRange(s')
  {
    Slide(Grow(s, window), num)
  }

  /** The packet the retransmission timer sends again. */
  function Oldest(s: Sender): Option<Stored>
    requires InRange(s)
  {
    s.buffer[s.smallInd % s.window]
  }

  // ---------------------------------------------------------------------------

  /** Slot contents: the packet of block `a`. The first one is sent with the window 1,
      all others with the window of the receiver. */
  predicate Keeps(slot: Option<Stored>, a: nat, blocks: seq<Block>, w: nat) {
    && slot.Some? && a < |blocks| && slot.value.num == a % 256 && slot.value.block == blocks[a]
    && slot.value.window == if a == 0 then 1 else w
  }

  /** The last `window` blocks sent lie in their slots, all other slots are
      empty, and the window is `w`, or still 1 with at most one block sent. */
  predicate RingInv(s: Sender, blocks: seq<Block>, w: nat) {
    && InRange(s) && s.window <= w <= MAX_WINDOW_SIZE
    && s.seqInd <= |blocks| && s.seqExp == s.seqInd % 256
    && (s.window != w ==> s.window == 1 && s.smallSeq == 0 && s.seqInd <= 1)
    && s.started == (s.seqInd > 0)
    && (!s.started ==> s.smallSeq == 0 && s.window == 1)
    && KeepsLatest(s, blocks, w) && RestEmpty(s)
  }

  predicate KeepsLatest(s: Sender, blocks: seq<Block>, w: nat)
    requires InRange(s)
  {
    forall a: nat :: a < s.seqInd <= a + s.window ==> Keeps(s.buffer[Slot(a, s.window)], a, blocks, w)
  }

  predicate RestEmpty(s: Sender)
    requires InRange(s)
  {
    forall i :: 0 <= i < MAX_WINDOW_SIZE && (i >= s.seqInd || i >= s.window) ==> s.buffer[i].None?
  }

  lemma RingInvInitially(blocks: seq<Block>, w: nat)
    requires 1 <= w <= MAX_WINDOW_SIZE
    ensures RingInv(INITIAL, blocks, w)
  {
  }

  lemma RingInvSend(s: Sender, blocks: seq<Block>, w: nat)
    requires RingInv(s, blocks, w) && MayRead(s) && s.seqInd < |blocks|
    ensures RingInv(Send(s, blocks[s.seqInd]), blocks, w)
  {
    hide Slot, KeepsLatest, RestEmpty;
    SendKeepsLatest(s, blocks, w);
    SendRestEmpty(s, blocks, w);
  }

  lemma SendKeepsLatest(s: Sender, blocks: seq<Block>, w: nat)
    requires RingInv(s, blocks, w) && MayRead(s) && s.seqInd < |blocks|
    ensures KeepsLatest(Send(s, blocks[s.seqInd]), blocks, w)
  {
    hide Slot, RestEmpty;
    var v := s.window;
    forall a: nat | a <= s.seqInd < a + v
      ensures Keeps(Send(s, blocks[s.seqInd]).buffer[Slot(a, v)], a, blocks, w)
    {
      if a < s.seqInd && Slot(a, v) == Slot(s.seqInd, v) {
        SlotInjective(a, s.seqInd, v);
      }
    }
  }

  lemma SendRestEmpty(s: Sender, blocks: seq<Block>, w: nat)
    requires RingInv(s, blocks, w) && s.seqInd < |blocks|
    ensures RestEmpty(Send(s, blocks[s.seqInd]))
  {
    hide Slot, KeepsLatest;
    if s.seqInd < s.window {
      SlotSmall(s.seqInd, s.window);
    }
  }

  lemma RingInvAcknowledge(s: Sender, blocks: seq<Block>, w: nat, num: byte)
    requires RingInv(s, blocks, w) && s.started
    ensures RingInv(Acknowledge(s, num, w), blocks, w)
  {
    hide Slot;
    if w > s.window {
      SlotSmall(0, 1);
      SlotSmall(0, w);
    }
  }

  /** The block in slot `i` when `next` blocks were sent. */
  function LatestIn(i: nat, next: nat, w: nat): (a: nat)
    requires w > 0
  {
    if i < next then next - 1 - Slot(next - 1 - i, w) else 0
  }

  lemma LatestInSlot(i: nat, next: nat, w: nat)
    requires i < w && i < next
    ensures var a := LatestIn(i, next, w); a < next <= a + w && Slot(a, w) == i
  {
    var a := SlotOnto(i, if next < w then 0 else next - w, w);
    hide Slot;
    if next < w {
      SlotSmall(a, w);
      SlotSmall(next - 1 - i, w);
    } else {
      var k := (next - 1 - i) / w;
      assert next - 1 - i == k * w + Slot(next - 1 - i, w) by { LatestDivides(next - 1 - i, w); }
      SlotSmall(i, w);
      SlotOfMultiple(i, k, w);
    }
  }

  lemma LatestDivides(x: nat, w: nat)
    requires w > 0
    ensures x == (x / w) * w + Slot(x, w)
  {
  }

  lemma SlotOfMultiple(i: nat, k: nat, w: nat)
    requires i < w
    ensures Slot(i + k * w, w) == i
  {
    SlotUnique(i + k * w, w, k, i);
  }

  /** Whenever the timer finds a packet, it is one of the last `window` blocks
      sent; and if the window is not overrun, it is the oldest unacknowledged
      one. */
  lemma OldestIs(s: Sender, blocks: seq<Block>, w: nat)
    requires RingInv(s, blocks, w)
    ensures Oldest(s).Some? ==>
              var a := LatestIn(s.smallInd, s.seqInd, s.window);
              a < s.seqInd <= a + s.window && Keeps(Oldest(s), a, blocks, w)
    ensures forall b: nat :: b < s.seqInd <= b + s.window && s.smallInd == Slot(b, s.window) ==>
              Oldest(s).Some? && LatestIn(s.smallInd, s.seqInd, s.window) == b
  {
    hide Slot;
    assert s.smallInd % s.window == s.smallInd;
    if s.smallInd < s.seqInd {
      LatestInSlot(s.smallInd, s.seqInd, s.window);
    }
    forall b: nat | b < s.seqInd <= b + s.window && s.smallInd == Slot(b, s.window)
      ensures Oldest(s).Some? && LatestIn(s.smallInd, s.seqInd, s.window) == b
    {
      var a := LatestIn(s.smallInd, s.seqInd, s.window);
      assert s.smallInd < s.seqInd;
      SlotInjective(if a < b then a else b, if a < b then b else a, s.window);
    }
  }

  /** The timer finds an empty slot exactly if its position was never reached. */
  lemma OldestMissingIff(s: Sender, blocks: seq<Block>, w: nat)
    requires RingInv(s, blocks, w)
    ensures Oldest(s).None? <==> s.smallInd >= s.seqInd
  {
    hide Slot;
    assert s.smallInd % s.window == s.smallInd;
    if s.smallInd < s.seqInd {
      LatestInSlot(s.smallInd, s.seqInd, s.window);
    }
  }

  /** The two tests agree while the counters have not wrapped between them. */
  lemma TestsAgree(s: Sender)
    requires InRange(s) && s.started && s.smallSeq <= s.seqExp
    ensures MayRead(s) <==> HasRoom(s)
  {
  }

  /** Exactly when the code's test lets a sender with a full window read on. */
  lemma OverrunIff(s: Sender)
    requires InRange(s) && s.started && Distance(s.smallSeq, s.seqExp) == s.window
    ensures MayRead(s) <==> s.smallSeq + s.window >= 256
  {
  }
}
