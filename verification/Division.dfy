/** The checksum as a remainder: CRC-32 as section 8 of RFC 1952 takes it from ISO 3309,
    stated with polynomials over two elements and without registers. A polynomial is the
    list of its coefficients, highest first. */
module Division {
  import opened Bytes
  import opened Crc
  import CrcKernel

  /** x^32 + x^26 + x^23 + x^22 + x^16 + x^12 + x^11 + x^10 + x^8 + x^7 + x^5 + x^4 + x^2
      + x + 1. */
  function Generator(): (g: seq<bool>)
    ensures |g| == 33
  {
    seq(33, i requires 0 <= i < 33 => 32 - i in {32, 26, 23, 22, 16, 12, 11, 10, 8, 7, 5, 4, 2, 1, 0})
  }

  function Sum(d: seq<bool>, e: seq<bool>): (r: seq<bool>)
    requires |d| == |e|
    ensures |r| == |d| && forall i :: 0 <= i < |r| ==> r[i] == (d[i] != e[i])
  {
    seq(|d|, i requires 0 <= i < |d| => d[i] != e[i])
  }

  /** `q` times the generator. */
  function Product(q: seq<bool>): (r: seq<bool>)
    ensures |r| == |q| + 32
  {
    if q == [] then Zeros(32)
    else
      var n := |q| - 1;
      Sum((if q[0] then Generator() else Zeros(33)) + Zeros(n), [false] + Product(q[1..]))
  }

  /** `r` is what `d` leaves on division by the generator. */
  ghost predicate Leaves(d: seq<bool>, r: seq<bool>)
    requires |d| >= 32 && |r| == 32
  {
    exists q: seq<bool> :: |q| == |d| - 32 && Sum(d, Zeros(|d| - 32) + r) == Product(q)
  }

  /** Long division: in each place subtract the generator if the coefficient is one. */
  function Remainder(d: seq<bool>): (r: seq<bool>)
    requires |d| >= 32
    ensures |r| == 32
    decreases |d|
  {
    if |d| == 32 then d else Remainder(Place(d))
  }

  function Place(d: seq<bool>): (e: seq<bool>)
    requires |d| >= 33
    ensures |e| == |d| - 1 && forall i :: 0 <= i < |e| ==> e[i] == (d[i + 1] != (d[0] && i < 32 && Generator()[i + 1]))
  {
    var n := |d| - 33;
    (if d[0] then Sum(d, Generator() + Zeros(n)) else d)[1..]
  }

  lemma {:induction false} RemainderIsLeft(d: seq<bool>)
    requires |d| >= 32
    ensures Leaves(d, Remainder(d))
    decreases |d|
  {
    hide Generator, Place;
    var r, n := Remainder(d), |d| - 32;
    if n == 0 {
      assert Sum(d, Zeros(0) + r) == Product([]);
    } else {
      RemainderIsLeft(Place(d));
      var q: seq<bool> :| |q| == n - 1 && Sum(Place(d), Zeros(n - 1) + r) == Product(q);
      ProductNext(d, q, r);
      assert |[d[0]] + q| == n;
    }
  }

  lemma ProductUnfolds(b: bool, q: seq<bool>)
    ensures Product([b] + q) == Sum((if b then Generator() else Zeros(33)) + Zeros(|q|), [false] + Product(q))
  {
    hide Generator, Sum, Zeros;
    assert ([b] + q)[1..] == q;
  }

  lemma LeadingTerm()
    ensures Generator()[0]
  {
  }

  /** The product with one more place in front. */
  lemma ProductPlace(b: bool, q: seq<bool>, j: nat)
    requires j < |q| + 33
    ensures Product([b] + q)[j] == if j == 0 then b else Product(q)[j - 1] != (b && j < 33 && Generator()[j])
  {
    hide Product, Generator, Sum;
    ProductUnfolds(b, q);
    LeadingTerm();
    var first, second := (if b then Generator() else Zeros(33)) + Zeros(|q|), [false] + Product(q);
    assert first[j] == (b && j < 33 && Generator()[j]);
    assert second[j] == if j == 0 then false else Product(q)[j - 1];
  }

  /** One more place of the quotient. */
  lemma ProductNext(d: seq<bool>, q: seq<bool>, r: seq<bool>)
    requires |d| >= 33 && |q| == |d| - 33 && |r| == 32
    ensures var n := |d| - 32;
            Sum(d, Zeros(n) + r) == Product([d[0]] + q) <==> Sum(Place(d), Zeros(n - 1) + r) == Product(q)
  {
    hide Product, Generator, Place, Sum;
    var n, p := |d| - 32, Product([d[0]] + q);
    var x, y := Sum(d, Zeros(n) + r), Sum(Place(d), Zeros(n - 1) + r);
    forall j | 0 <= j < |x|
      ensures j == 0 ==> x[j] == p[j]
      ensures j > 0 ==> (x[j] == p[j] <==> y[j - 1] == Product(q)[j - 1])
    {
      ProductPlace(d[0], q, j);
      if j > 0 {
        assert (Zeros(n) + r)[j] == (Zeros(n - 1) + r)[j - 1];
        assert Place(d)[j - 1] == (d[j - 1 + 1] != (d[0] && j - 1 < 32 && Generator()[j - 1 + 1]));
      }
    }
    SameBehind(x, p, y, Product(q));
  }

  lemma SameBehind(x: seq<bool>, p: seq<bool>, y: seq<bool>, q: seq<bool>)
    requires |x| == |p| == |y| + 1 && |q| == |y| && x[0] == p[0]
    requires forall j :: 0 < j < |x| ==> (x[j] == p[j] <==> y[j - 1] == q[j - 1])
    ensures x == p <==> y == q
  {
    if x == p {
      forall i | 0 <= i < |y|
        ensures y[i] == q[i]
      {
        assert x[i + 1] == p[i + 1];
      }
    }
  }

  lemma {:induction false} LeftIsRemainder(d: seq<bool>, q: seq<bool>, r: seq<bool>)
    requires |d| >= 32 && |q| == |d| - 32 && |r| == 32 && Sum(d, Zeros(|d| - 32) + r) == Product(q)
    ensures r == Remainder(d)
    decreases |d|
  {
    var n := |d| - 32;
    if n == 0 {
      forall i | 0 <= i < 32
        ensures r[i] == d[i]
      {
        assert Sum(d, Zeros(0) + r)[i] == Product([])[i];
      }
    } else {
      assert Sum(d, Zeros(n) + r)[0] == Product(q)[0] == q[0];
      assert q == [d[0]] + q[1..];
      ProductNext(d, q[1..], r);
      LeftIsRemainder(Place(d), q[1..], r);
    }
  }

  /** Long division finds the one remainder there is. */
  lemma LeavesIff(d: seq<bool>, r: seq<bool>)
    requires |d| >= 32 && |r| == 32
    ensures Leaves(d, r) <==> r == Remainder(d)
  {
    RemainderIsLeft(d);
    if Leaves(d, r) {
      var q: seq<bool> :| |q| == |d| - 32 && Sum(d, Zeros(|d| - 32) + r) == Product(q);
      LeftIsRemainder(d, q, r);
    }
  }

  /** The bits of a message in the order in which they count: byte by byte, the lowest
      bit of each byte first. */
  function MessageBits(s: seq<byte>): (d: seq<bool>)
    ensures |d| == 8 * |s|
  {
    if s == [] then [] else Bits(8, s[0]) + MessageBits(s[1..])
  }

  /** `c` added to the front of `d`. */
  function Front(c: seq<bool>, d: seq<bool>): (r: seq<bool>)
    requires |c| <= |d|
    ensures |r| == |d| && forall i :: 0 <= i < |r| ==> r[i] == (d[i] != (i < |c| && c[i]))
  {
    Sum(d, c + Zeros(|d| - |c|))
  }

  /** Bits of value one, and the bits turned over. */
  function AllOnes(n: nat): (r: seq<bool>)
    ensures |r| == n && forall i :: 0 <= i < n ==> r[i]
  {
    seq(n, _ => true)
  }

  function Complement(r: seq<bool>): seq<bool> {
    Sum(r, AllOnes(|r|))
  }

  /** The message times x^32, with its first 32 coefficients turned over. */
  function Dividend(s: seq<byte>): (d: seq<bool>)
    ensures |d| == 8 * |s| + 32
  {
    Front(AllOnes(32), MessageBits(s) + Zeros(32))
  }

  // ---------------------------------------------------------------------------
  // The register holds the remainder

  lemma PolynomialIsGenerator(i: nat)
    requires i < 32
    ensures POLYNOMIAL[i] == Generator()[i + 1]
  {
    hide Bits;
    CrcKernel.Terms(i);
  }

  lemma PlaceIsStep(c: register, d: seq<bool>)
    requires |d| >= 33 && !d[0]
    ensures Place(Front(c, d)) == Front(BitStep(c), d[1..])
  {
    forall i | 0 <= i < |d| - 1
      ensures Place(Front(c, d))[i] == Front(BitStep(c), d[1..])[i]
    {
      if i < 32 {
        PolynomialIsGenerator(i);
      }
    }
  }

  lemma {:induction false} PlacesAreSteps(c: register, d: seq<bool>, n: nat)
    requires |d| >= 32 + n && forall i :: 0 <= i < n ==> !d[i]
    ensures Remainder(Front(c, d)) == Remainder(Front(BitSteps(n, c), d[n..]))
    decreases n
  {
    if n == 0 {
      assert d[0..] == d;
    } else {
      PlaceIsStep(c, d);
      PlacesAreSteps(BitStep(c), d[1..], n - 1);
      assert d[1..][n - 1..] == d[n..];
    }
  }

  /** The bits of a byte may be added to the register or to the message. */
  lemma ByteMoves(c: register, b: byte, d: seq<bool>)
    requires |d| >= 32
    ensures Front(c, Bits(8, b) + d) == Front(Xor(c, Octet(b)), Zeros(8) + d)
  {
    hide Bits, Xor;
    var x, y := Front(c, Bits(8, b) + d), Front(Xor(c, Octet(b)), Zeros(8) + d);
    forall i | 0 <= i < |x|
      ensures x[i] == y[i]
    {
      assert i < 32 ==> Xor(c, Octet(b))[i] == (c[i] != Octet(b)[i]);
    }
  }

  lemma {:induction false} RegisterIsRemainder(c: register, s: seq<byte>)
    ensures Register(c, s) == Remainder(Front(c, MessageBits(s) + Zeros(32)))
    decreases |s|
  {
    if s == [] {
      assert Front(c, [] + Zeros(32)) == c;
    } else {
      var d := MessageBits(s[1..]) + Zeros(32);
      assert MessageBits(s) + Zeros(32) == Bits(8, s[0]) + d;
      ByteMoves(c, s[0], d);
      PlacesAreSteps(Xor(c, Octet(s[0])), Zeros(8) + d, 8);
      assert (Zeros(8) + d)[8..] == d;
      RegisterIsRemainder(ByteStep(c, s[0]), s[1..]);
    }
  }

  lemma {:induction false} BitsAppend(n: nat, k: nat, b: nat, rest: nat)
    requires b < Power2(n)
    ensures Bits(n + k, b + Power2(n) * rest) == Bits(n, b) + Bits(k, rest)
    decreases n
  {
    if n > 0 {
      var p := Power2(n - 1) * rest;
      assert Power2(n) * rest == 2 * p;
      assert (b + 2 * p) % 2 == b % 2 && (b + 2 * p) / 2 == b / 2 + p;
      BitsAppend(n - 1, k, b / 2, rest);
    }
  }

  lemma BitsOfRegister(x: register)
    ensures Bits(32, Load32(RegisterBytes(x), 0)) == x
  {
    hide Bits, Value;
    var v0, v1, v2, v3 := Value(x[..8]), Value(x[8..16]), Value(x[16..24]), Value(x[24..]);
    assert Power2(8) == 256;
    ValueBound(x[..8]);
    ValueBound(x[8..16]);
    ValueBound(x[16..24]);
    BitsAppend(8, 24, v0, v1 + 256 * (v2 + 256 * v3));
    BitsAppend(8, 16, v1, v2 + 256 * v3);
    BitsAppend(8, 8, v2, v3);
    BitsOfValue(x[..8]);
    BitsOfValue(x[8..16]);
    BitsOfValue(x[16..24]);
    BitsOfValue(x[24..]);
    assert x == x[..8] + (x[8..16] + (x[16..24] + x[24..]));
  }

  lemma OnesAreOnes()
    ensures ONES == AllOnes(32)
  {
    assert Bits(8, 0xFF) == AllOnes(8);
  }

  lemma BitsInjective(x: word32, y: word32)
    requires Bits(32, x) == Bits(32, y)
    ensures x == y
  {
    hide Bits, Value;
    assert Power2(32) == 0x1_0000_0000 by {
      assert Power2(8) == 256 && Power2(16) == 256 * Power2(8) && Power2(24) == 256 * Power2(16);
    }
    ValueOfBits(32, x);
    ValueOfBits(32, y);
  }

  lemma CrcBits(s: seq<byte>)
    ensures Complement(Bits(32, Crc32(s))) == Remainder(Dividend(s))
  {
    hide Bits, Register, RegisterBytes, Remainder, MessageBits, BitSteps, Load32;
    var r := Register(ONES, s);
    RegisterIsRemainder(ONES, s);
    BitsOfRegister(Xor(r, ONES));
    OnesAreOnes();
    assert Complement(Xor(r, ONES)) == r;
  }

  /** The checksum of the RFC: the message times x^32, with its first 32 coefficients
      turned over, leaves the bits of the checksum turned over; the lowest bit of the
      checksum is the highest coefficient. No other word has that property. */
  lemma Crc32IsRemainder(s: seq<byte>, x: word32)
    ensures Crc32(s) == x <==> Leaves(Dividend(s), Complement(Bits(32, x)))
  {
    hide Bits, Crc32, Remainder, Dividend, Leaves;
    CrcBits(s);
    LeavesIff(Dividend(s), Complement(Bits(32, x)));
    var y := Crc32(s);
    if Complement(Bits(32, x)) == Complement(Bits(32, y)) {
      assert forall i :: 0 <= i < 32 ==> Complement(Bits(32, x))[i] == Complement(Bits(32, y))[i];
      assert Bits(32, x) == Bits(32, y);
      BitsInjective(x, y);
    }
  }
}
