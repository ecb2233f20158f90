/** Absolute numbers, and the slots and 8-bit numbers they are reduced to. */
module Ring {
  function Slot(a: nat, w: nat): (i: nat)
    requires w > 0
    ensures i < w
  {
    a % w
  }

  /** Places on the circle of the 256 sequence numbers from `from` to `to`. */
  function Distance(from: int, to: int): (d: nat)
    ensures d < 256
  {
    (to - from) % 256
  }

  lemma SlotSmall(a: nat, w: nat)
    requires a < w
    ensures Slot(a, w) == a
  {
  }

  lemma Multiples(p: int, q: int, w: nat)
    ensures p < q ==> p * w + w <= q * w
  {
    if p < q {
      assert (p + 1) * w <= q * w;
    }
  }

  lemma SlotUnique(a: nat, w: nat, q: int, i: nat)
    requires i < w && a == q * w + i
    ensures Slot(a, w) == i
  {
    var p := a / w;
    assert a == p * w + a % w;
    Multiples(p, q, w);
    Multiples(q, p, w);
  }

  lemma SlotAdd(a: nat, d: nat, w: nat)
    requires w > 0
    ensures Slot(a + d, w) == (Slot(a, w) + d) % w
  {
    var b := Slot(a, w) + d;
    assert a == (a / w) * w + Slot(a, w);
    assert b == (b / w) * w + b % w;
    assert a + d == (a / w + b / w) * w + b % w;
    SlotUnique(a + d, w, a / w + b / w, b % w);
  }

  lemma ModAdd(a: nat, d: nat, w: nat)
    requires w > 0
    ensures (a % w + d) % w == (a + d) % w
  {
    SlotAdd(a, d, w);
  }

  lemma SlotInjective(a: nat, b: nat, w: nat)
    requires w > 0 && a <= b < a + w && Slot(a, w) == Slot(b, w)
    ensures a == b
  {
    var p, q := a / w, b / w;
    assert a == p * w + Slot(a, w) && b == q * w + Slot(b, w);
    Multiples(p, q, w);
    Multiples(q, p, w);
  }

  lemma SlotWraps(a: nat, w: nat)
    requires w > 0
    ensures Slot(a + w, w) == Slot(a, w)
  {
    assert a == (a / w) * w + Slot(a, w);
    SlotUnique(a + w, w, a / w + 1, Slot(a, w));
  }

  /** Every slot belongs to exactly one of `w` consecutive numbers. */
  lemma SlotOnto(i: nat, from: nat, w: nat) returns (a: nat)
    requires i < w
    ensures from <= a < from + w && Slot(a, w) == i
  {
    var d := if Slot(from, w) <= i then i - Slot(from, w) else i + w - Slot(from, w);
    a := from + d;
    SlotAdd(from, d, w);
    if Slot(from, w) + d == i {
      SlotSmall(i, w);
    } else {
      SlotSmall(i, w);
      SlotWraps(i, w);
    }
  }
}
