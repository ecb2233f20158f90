/** CRC-32 as section 8 of RFC 1952 defines it, and the reason why it notices
    every change of at most four consecutive bytes. */
module Crc {
  import opened Bytes

  /** A register of 32 bits, lowest first. */
  type register = r: seq<bool> | |r| == 32 witness Bits(32, 0)

  /** The reversed polynomial 0xEDB88320, low byte first. */
  const POLYNOMIAL: register := Bits(8, 0x20) + Bits(8, 0x83) + Bits(8, 0xB8) + Bits(8, 0xED)
  const ONES: register := Bits(8, 0xFF) + Bits(8, 0xFF) + Bits(8, 0xFF) + Bits(8, 0xFF)

  function XorBits(a: seq<bool>, b: seq<bool>): (r: seq<bool>)
    requires |a| == |b|
    ensures |r| == |a| && forall i :: 0 <= i < |r| ==> r[i] == (a[i] != b[i])
  {
    if a == [] then [] else [a[0] != b[0]] + XorBits(a[1..], b[1..])
  }

  function Xor(a: register, b: register): (r: register)
    ensures forall i :: 0 <= i < 32 ==> r[i] == (a[i] != b[i])
  {
    XorBits(a, b)
  }

  function Zeros(n: nat): (r: seq<bool>)
    ensures |r| == n && forall i :: 0 <= i < n ==> !r[i]
  {
    seq(n, _ => false)
  }

  /** One bit of the division: shift right, and subtract the polynomial if a one
      falls out. */
  function BitStep(x: register): register {
    var shifted := x[1..] + [false];
    if x[0] then Xor(shifted, POLYNOMIAL) else shifted
  }

  function BitSteps(n: nat, x: register): register
  {
    if n == 0 then x else BitSteps(n - 1, BitStep(x))
  }

  function ByteStep(c: register, b: byte): register {
    BitSteps(8, Xor(c, Octet(b)))
  }

  /** The register after the bytes of `s`. */
  function Register(c: register, s: seq<byte>): register
    decreases |s|
  {
    if s == [] then c else Register(ByteStep(c, s[0]), s[1..])
  }

  /** The bytes of a register, low byte first. */
  function RegisterBytes(r: register): (s: seq<byte>)
    ensures |s| == 4
  {
    [ByteOf(r[..8]), ByteOf(r[8..16]), ByteOf(r[16..24]), ByteOf(r[24..])]
  }

  function ByteOf(bits: seq<bool>): byte
    requires |bits| == 8
  {
    ValueBound(bits);
    assert Power2(8) == 256;
    Value(bits)
  }

  function Crc32(s: seq<byte>): word32 {
    Load32(RegisterBytes(Xor(Register(ONES, s), ONES)), 0)
  }

  lemma RegisterValueInjective(x: register, y: register)
    requires Load32(RegisterBytes(x), 0) == Load32(RegisterBytes(y), 0)
    ensures x == y
  {
    LoadInjective32(RegisterBytes(x), RegisterBytes(y));
    ValueInjective(x[..8], y[..8]);
    ValueInjective(x[8..16], y[8..16]);
    ValueInjective(x[16..24], y[16..24]);
    ValueInjective(x[24..], y[24..]);
    assert forall r: register :: r == r[..8] + r[8..16] + r[16..24] + r[24..];
  }

  lemma {:induction false} HighBit(n: nat, x: nat)
    requires n > 0 && Power2(n - 1) <= x < Power2(n)
    ensures Bits(n, x)[n - 1]
  {
    if n > 1 {
      HighBit(n - 1, x / 2);
      assert Bits(n, x)[1..] == Bits(n - 1, x / 2);
    }
  }

  lemma TopBit()
    ensures POLYNOMIAL[31]
  {
    assert Power2(3) == 8 && Power2(7) == 16 * Power2(3);
    HighBit(8, 0xED);
    assert POLYNOMIAL[31] == Bits(8, 0xED)[7];
  }

  /** What zlib returns for no bytes at all. */
  lemma Crc32OfNothing()
    ensures Crc32([]) == 0
  {
    var r := Xor(ONES, ONES);
    ValueOfZeros(8);
    assert r[..8] == r[8..16] == r[16..24] == r[24..] == Zeros(8);
    assert Register(ONES, []) == ONES;
  }

  lemma {:induction false} ValueOfZeros(n: nat)
    ensures Value(Zeros(n)) == 0
  {
    if n > 0 {
      assert Zeros(n)[1..] == Zeros(n - 1);
      ValueOfZeros(n - 1);
    }
  }

  lemma BitStepLinear(x: register, y: register)
    ensures BitStep(Xor(x, y)) == Xor(BitStep(x), BitStep(y))
  {
  }

  lemma BitStepInjective(x: register, y: register)
    requires BitStep(x) == BitStep(y)
    ensures x == y
  {
    TopBit();
    assert BitStep(x)[31] == x[0] && BitStep(y)[31] == y[0];
    forall i | 1 <= i < 32
      ensures x[i] == y[i]
    {
      assert BitStep(x)[i - 1] == BitStep(y)[i - 1];
    }
  }

  lemma {:induction false} BitStepsLinear(x: register, y: register, n: nat)
    ensures BitSteps(n, Xor(x, y)) == Xor(BitSteps(n, x), BitSteps(n, y))
    decreases n
  {
    if n > 0 {
      BitStepLinear(x, y);
      BitStepsLinear(BitStep(x), BitStep(y), n - 1);
    }
  }

  lemma {:induction false} BitStepsInjective(x: register, y: register, n: nat)
    requires BitSteps(n, x) == BitSteps(n, y)
    ensures x == y
    decreases n
  {
    if n > 0 {
      BitStepsInjective(BitStep(x), BitStep(y), n - 1);
      BitStepInjective(x, y);
    }
  }

  lemma {:induction false} BitStepsCompose(x: register, m: nat, n: nat)
    ensures BitSteps(n, BitSteps(m, x)) == BitSteps(m + n, x)
    decreases m
  {
    if m > 0 {
      BitStepsCompose(BitStep(x), m - 1, n);
    }
  }

  /** As long as only zeros fall out, a step is a plain shift. */
  lemma {:induction false} ShiftedZeros(x: register, n: nat)
    requires n <= 32 && forall i :: 0 <= i < n ==> !x[i]
    ensures BitSteps(n, x) == x[n..] + Zeros(n)
    decreases n
  {
    if n > 0 {
      ShiftedZeros(BitStep(x), n - 1);
      assert BitStep(x)[n - 1..] + Zeros(n - 1) == x[n..] + Zeros(n);
    } else {
      assert x[0..] + Zeros(0) == x;
    }
  }

  /** Up to four bytes side by side in one register. */
  function Packed(s: seq<byte>): (r: register)
    requires |s| <= 4
    decreases |s|
  {
    if s == [] then Zeros(32) else Bits(8, s[0]) + Packed(s[1..])[..24]
  }

  lemma {:induction false} PackedTail(s: seq<byte>, i: nat)
    requires |s| <= 4 && 8 * |s| <= i < 32
    ensures !Packed(s)[i]
    decreases |s|
  {
    if s != [] {
      PackedTail(s[1..], i - 8);
    }
  }

  lemma PackedParts(s: seq<byte>)
    requires 1 <= |s| <= 4
    ensures Value(Packed(s)[..8]) == s[0]
    ensures Packed(s)[8..] == Packed(s[1..])[..24]
  {
    assert Packed(s)[..8] == Bits(8, s[0]);
    assert Power2(8) == 256;
    ValueOfBits(8, s[0]);
  }

  lemma {:induction false} PackedInjective(s: seq<byte>, t: seq<byte>)
    requires |s| == |t| <= 4 && Packed(s) == Packed(t)
    ensures s == t
    decreases |s|
  {
    if s != [] {
      var p, q := Packed(s[1..]), Packed(t[1..]);
      PackedParts(s);
      PackedParts(t);
      forall i | 0 <= i < 32
        ensures p[i] == q[i]
      {
        if i < 24 {
          assert p[i] == p[..24][i] && q[i] == q[..24][i];
        } else {
          PackedTail(s[1..], i);
          PackedTail(t[1..], i);
        }
      }
      PackedInjective(s[1..], t[1..]);
      assert s == [s[0]] + s[1..] && t == [t[0]] + t[1..];
    }
  }

  function Octet(b: byte): register {
    Bits(8, b) + Zeros(24)
  }

  /** Adding the packed rest eight places higher and then shifting by eight is
      the same as adding it after the shift. */
  lemma PackedRest(c: register, s: seq<byte>)
    requires |s| <= 3
    ensures |Zeros(8) + Packed(s)[..24]| == 32
    ensures BitSteps(8, Xor(c, Zeros(8) + Packed(s)[..24])) == Xor(BitSteps(8, c), Packed(s))
  {
    var shifted: register := Zeros(8) + Packed(s)[..24];
    forall i | 24 <= i < 32
      ensures !Packed(s)[i]
    {
      PackedTail(s, i);
    }
    ShiftedZeros(shifted, 8);
    assert shifted[8..] + Zeros(8) == Packed(s);
    BitStepsLinear(c, shifted, 8);
  }

  lemma PackedSplit(c: register, s: seq<byte>)
    requires 1 <= |s| <= 4
    ensures |Zeros(8) + Packed(s[1..])[..24]| == 32
    ensures Xor(Xor(c, Octet(s[0])), Zeros(8) + Packed(s[1..])[..24]) == Xor(c, Packed(s))
  {
    var shifted: register := Zeros(8) + Packed(s[1..])[..24];
    forall i | 0 <= i < 32
      ensures Xor(Octet(s[0]), shifted)[i] == Packed(s)[i]
    {
      if i >= 8 {
        assert !Octet(s[0])[i];
      }
    }
  }

  lemma PackedStep(c: register, s: seq<byte>)
    requires 1 <= |s| <= 4
    ensures Xor(ByteStep(c, s[0]), Packed(s[1..])) == BitSteps(8, Xor(c, Packed(s)))
  {
    PackedRest(Xor(c, Octet(s[0])), s[1..]);
    PackedSplit(c, s);
  }

  /** Feeding up to four bytes one by one is the same as adding them to the
      register at once. */
  lemma {:induction false} RegisterOfPacked(c: register, s: seq<byte>)
    requires |s| <= 4
    ensures Register(c, s) == BitSteps(8 * |s|, Xor(c, Packed(s)))
    decreases |s|
  {
    if s == [] {
      assert Xor(c, Zeros(32)) == c;
    } else {
      RegisterOfPacked(ByteStep(c, s[0]), s[1..]);
      PackedStep(c, s);
      BitStepsCompose(Xor(c, Packed(s)), 8, 8 * |s[1..]|);
    }
  }

  lemma XorInjective(c: register, x: register, y: register)
    requires Xor(c, x) == Xor(c, y)
    ensures x == y
  {
    forall i | 0 <= i < 32
      ensures x[i] == y[i]
    {
      assert Xor(c, x)[i] == Xor(c, y)[i];
    }
  }

  lemma XorCommutes(a: register, b: register)
    ensures Xor(a, b) == Xor(b, a)
  {
  }

  lemma {:induction false} RegisterAppend(c: register, s: seq<byte>, t: seq<byte>)
    ensures Register(c, s + t) == Register(Register(c, s), t)
    decreases |s|
  {
    if s == [] {
      assert s + t == t;
    } else {
      assert (s + t)[1..] == s[1..] + t;
      RegisterAppend(ByteStep(c, s[0]), s[1..], t);
    }
  }

  /** Two registers that differ stay different, whatever bytes follow. */
  lemma {:induction false} RegisterInjective(c: register, d: register, s: seq<byte>)
    requires Register(c, s) == Register(d, s)
    ensures c == d
    decreases |s|
  {
    if s != [] {
      var octet := Octet(s[0]);
      RegisterInjective(ByteStep(c, s[0]), ByteStep(d, s[0]), s[1..]);
      BitStepsInjective(Xor(c, octet), Xor(d, octet), 8);
      XorCommutes(c, octet);
      XorCommutes(d, octet);
      XorInjective(octet, c, d);
    }
  }

  /** `t` is `s` with at most four consecutive bytes replaced. */
  ghost predicate Burst(s: seq<byte>, t: seq<byte>, at: nat) {
    |s| == |t| && s[..Min(at, |s|)] == t[..Min(at, |s|)] && s[Min(at + 4, |s|)..] == t[Min(at + 4, |s|)..]
  }

  function Min(a: nat, b: nat): nat {
    if a < b then a else b
  }

  lemma SameCrcSameRegister(s: seq<byte>, t: seq<byte>)
    requires Crc32(s) == Crc32(t)
    ensures Register(ONES, s) == Register(ONES, t)
  {
    hide Register;
    var r, q := Register(ONES, s), Register(ONES, t);
    RegisterValueInjective(Xor(r, ONES), Xor(q, ONES));
    hide Xor;
    XorCommutes(r, ONES);
    XorCommutes(q, ONES);
    XorInjective(ONES, r, q);
  }

  /** What two sequences have in common behind their difference can be cut off. */
  lemma CommonTail(p: seq<byte>, x: seq<byte>, y: seq<byte>, q: seq<byte>)
    requires Register(ONES, p + (x + q)) == Register(ONES, p + (y + q))
    ensures Register(Register(ONES, p), x) == Register(Register(ONES, p), y)
  {
    hide Register;
    var c := Register(ONES, p);
    RegisterAppend(ONES, p, x + q);
    RegisterAppend(ONES, p, y + q);
    RegisterAppend(c, x, q);
    RegisterAppend(c, y, q);
    RegisterInjective(Register(c, x), Register(c, y), q);
  }

  lemma FourBytesDiffer(c: register, x: seq<byte>, y: seq<byte>)
    requires |x| == |y| <= 4 && Register(c, x) == Register(c, y)
    ensures x == y
  {
    hide Register, BitSteps, Xor, Packed;
    RegisterOfPacked(c, x);
    RegisterOfPacked(c, y);
    BitStepsInjective(Xor(c, Packed(x)), Xor(c, Packed(y)), 8 * |x|);
    XorInjective(c, Packed(x), Packed(y));
    PackedInjective(x, y);
  }

  /** The checksum tells a sequence from every burst of it that changes it. */
  lemma BurstChangesCrc(s: seq<byte>, t: seq<byte>, at: nat)
    requires Burst(s, t, at)
    ensures Crc32(s) == Crc32(t) <==> s == t
  {
    hide Crc32, Register;
    if Crc32(s) == Crc32(t) {
      var lo, hi := Min(at, |s|), Min(at + 4, |s|);
      assert s == s[..lo] + (s[lo..hi] + s[hi..]) && t == s[..lo] + (t[lo..hi] + s[hi..]);
      SameCrcSameRegister(s, t);
      CommonTail(s[..lo], s[lo..hi], t[lo..hi], s[hi..]);
      FourBytesDiffer(Register(ONES, s[..lo]), s[lo..hi], t[lo..hi]);
    }
  }
}
