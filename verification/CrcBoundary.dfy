/** Bursts that reach from the covered bytes into the checksum that is sent behind
    them in network order. */
module CrcBoundary {
  import opened Bytes
  import opened Crc
  import opened CrcKernel

  function Difference(s: seq<byte>, t: seq<byte>): register {
    Xor(Register(ONES, s), Register(ONES, t))
  }

  /** Byte `i` of the checksum as it is sent. */
  lemma ChecksumBits(s: seq<byte>, i: nat)
    requires i < 4
    ensures Bits(8, Network32(Crc32(s))[i]) == Xor(Register(ONES, s), ONES)[24 - 8 * i..32 - 8 * i]
  {
    hide Register, Xor, Bits, Value, Network32, Load32;
    var r := Xor(Register(ONES, s), ONES);
    NetworkReverses(RegisterBytes(r));
    BitsOfValue(r[..8]);
    BitsOfValue(r[8..16]);
    BitsOfValue(r[16..24]);
    BitsOfValue(r[24..]);
  }

  /** Place `j` of byte `i` of the two checksums. */
  lemma ChecksumsDiffer(s: seq<byte>, t: seq<byte>, i: nat, j: nat)
    requires i < 4 && j < 8
    ensures (Bits(8, Network32(Crc32(s))[i])[j] != Bits(8, Network32(Crc32(t))[i])[j]) ==
            Difference(s, t)[24 - 8 * i + j]
  {
    hide Register, Bits, Network32, Crc32;
    ChecksumBits(s, i);
    ChecksumBits(t, i);
  }

  lemma DifferenceSteps(p: seq<byte>, x: seq<byte>, y: seq<byte>)
    requires |x| == |y| <= 4
    ensures Difference(p + x, p + y) == BitSteps(8 * |x|, Xor(Packed(x), Packed(y)))
  {
    hide Register, BitSteps, Packed, XorBits;
    var c := Register(ONES, p);
    RegisterAppend(ONES, p, x);
    RegisterAppend(ONES, p, y);
    RegisterOfPacked(c, x);
    RegisterOfPacked(c, y);
    BitStepsLinear(Xor(c, Packed(x)), Xor(c, Packed(y)), 8 * |x|);
    assert Xor(Xor(c, Packed(x)), Xor(c, Packed(y))) == Xor(Packed(x), Packed(y));
  }

  lemma AgreeingPlace(s: seq<byte>, t: seq<byte>, k: nat, j: nat)
    requires k <= 4 && j < 8 * k && Network32(Crc32(s))[4 - k..] == Network32(Crc32(t))[4 - k..]
    ensures !Difference(s, t)[j]
  {
    hide Bits, Network32, Crc32, Difference;
    var u, v, i := Network32(Crc32(s)), Network32(Crc32(t)), 3 - j / 8;
    assert u[i] == u[4 - k..][i - (4 - k)] && v[i] == v[4 - k..][i - (4 - k)];
    ChecksumsDiffer(s, t, i, j % 8);
    assert 24 - 8 * i + j % 8 == j;
  }

  /** If the last bytes of two checksums agree, as many changed bytes in front of
      them hide in the register. */
  lemma AgreeingTailHides(p: seq<byte>, x: seq<byte>, y: seq<byte>)
    requires 1 <= |x| == |y| <= 3
    requires Network32(Crc32(p + x))[4 - |x|..] == Network32(Crc32(p + y))[4 - |x|..]
    ensures Hidden(8 * |x|, Xor(Packed(x), Packed(y)))
  {
    hide Register, BitSteps, XorBits, Bits, Network32, Crc32, Packed, Difference;
    var m := Xor(Packed(x), Packed(y));
    DifferenceSteps(p, x, y);
    forall i | 8 * |x| <= i < 32
      ensures !m[i]
    {
      PackedTail(x, i);
      PackedTail(y, i);
    }
    forall j | 0 <= j < 8 * |x|
      ensures !BitSteps(8 * |x|, m)[j]
    {
      AgreeingPlace(p + x, p + y, |x|, j);
    }
  }

  lemma SamePacked(x: seq<byte>, y: seq<byte>)
    requires |x| == |y| <= 4 && Zero(Xor(Packed(x), Packed(y)))
    ensures x == y
  {
    hide Packed, XorBits;
    forall i | 0 <= i < 32
      ensures Packed(x)[i] == Packed(y)[i]
    {
      assert !Xor(Packed(x), Packed(y))[i];
    }
    PackedInjective(x, y);
  }

  /** `b` is `a` with the ones of `pattern` inverted. */
  predicate DiffersBy(a: byte, b: byte, pattern: byte) {
    XorBits(Bits(8, a), Bits(8, b)) == Bits(8, pattern)
  }

  lemma Flip(a: byte, pattern: byte) returns (b: byte)
    ensures DiffersBy(a, b, pattern)
  {
    hide Bits;
    var bits := XorBits(Bits(8, a), Bits(8, pattern));
    b := ByteOf(bits);
    BitsOfValue(bits);
  }

  lemma FlipZero(pattern: byte)
    ensures DiffersBy(0, pattern, pattern)
  {
    ValueOfBits(8, 0);
    ValueOfZeros(8);
    assert Power2(8) == 256;
    ValueInjective(Bits(8, 0), Zeros(8));
    hide Bits;
  }

  lemma PackedPair(x: seq<byte>)
    requires |x| == 2
    ensures Packed(x) == Bits(8, x[0]) + Bits(8, x[1]) + Zeros(16)
  {
    assert x[1..] == [x[1]] && x[1..][1..] == [];
    assert Packed(x[1..][1..]) == Zeros(32);
    assert Packed(x[1..]) == Bits(8, x[1]) + Zeros(24);
  }

  lemma PairDifference(x: seq<byte>, y: seq<byte>)
    requires |x| == |y| == 2
    ensures Xor(Packed(x), Packed(y)) ==
            XorBits(Bits(8, x[0]), Bits(8, y[0])) + XorBits(Bits(8, x[1]), Bits(8, y[1])) + Zeros(16)
  {
    hide Packed, Bits, Value;
    PackedPair(x);
    PackedPair(y);
  }

  lemma PatternParts(a: seq<bool>, b: seq<bool>)
    requires |a| == |b| == 8
    ensures a + b + Zeros(16) == PATTERN <==> a == Bits(8, 0x61) && b == Bits(8, 0xD8)
  {
    hide Bits, XorBits;
    var r := a + b + Zeros(16);
    assert r[..8] == a && r[8..16] == b;
    assert PATTERN[..8] == Bits(8, 0x61) && PATTERN[8..16] == Bits(8, 0xD8);
  }

  lemma PatternIff(x: seq<byte>, y: seq<byte>)
    requires |x| == |y| == 2
    ensures Xor(Packed(x), Packed(y)) == PATTERN <==> DiffersBy(x[0], y[0], 0x61) && DiffersBy(x[1], y[1], 0xD8)
  {
    hide Packed, Bits, Xor, XorBits;
    PairDifference(x, y);
    PatternParts(XorBits(Bits(8, x[0]), Bits(8, y[0])), XorBits(Bits(8, x[1]), Bits(8, y[1])));
  }

  /** `t` is `s` changed by the pattern around place `b`, and by nothing else. */
  predicate Missed(s: seq<byte>, t: seq<byte>, b: nat) {
    && 2 <= b && |s| == |t| >= b + 2 && s[..b - 2] == t[..b - 2] && s[b + 2..] == t[b + 2..]
    && DiffersBy(s[b - 2], t[b - 2], 0x61) && DiffersBy(s[b - 1], t[b - 1], 0xD8)
    && DiffersBy(s[b], t[b], 0xF4) && DiffersBy(s[b + 1], t[b + 1], 0xEE)
  }

  /** A sequence with its checksum behind it. */
  function Sealed(s: seq<byte>): seq<byte> {
    s + Network32(Crc32(s))
  }

  lemma SameBits(a: byte, b: byte)
    requires forall j :: 0 <= j < 8 ==> Bits(8, a)[j] == Bits(8, b)[j]
    ensures a == b
  {
    hide Bits;
    assert Bits(8, a) == Bits(8, b);
    assert Power2(8) == 256;
    ValueOfBits(8, a);
    ValueOfBits(8, b);
  }

  lemma DiffersByInjective(a: byte, b: byte, c: byte, pattern: byte)
    requires DiffersBy(a, b, pattern) && DiffersBy(a, c, pattern)
    ensures b == c
  {
    hide Bits;
    forall j | 0 <= j < 8
      ensures Bits(8, b)[j] == Bits(8, c)[j]
    {
      assert XorBits(Bits(8, a), Bits(8, b))[j] == XorBits(Bits(8, a), Bits(8, c))[j];
    }
    SameBits(b, c);
  }

  /** Byte `i` of two checksums whose registers differ by `d`. */
  lemma ChecksumByte(s: seq<byte>, t: seq<byte>, i: nat, pattern: byte)
    requires i < 4 && Difference(s, t)[24 - 8 * i..32 - 8 * i] == Bits(8, pattern)
    ensures DiffersBy(Network32(Crc32(s))[i], Network32(Crc32(t))[i], pattern)
  {
    hide Bits, Network32, Crc32, Difference;
    var u, v := Network32(Crc32(s))[i], Network32(Crc32(t))[i];
    var d, n := Difference(s, t), 24 - 8 * i;
    forall j | 0 <= j < 8
      ensures XorBits(Bits(8, u), Bits(8, v))[j] == Bits(8, pattern)[j]
    {
      ChecksumsDiffer(s, t, i, j);
      assert d[n..n + 8][j] == d[n + j];
    }
  }

  lemma ChecksumByteSame(s: seq<byte>, t: seq<byte>, i: nat)
    requires i < 4 && Difference(s, t)[24 - 8 * i..32 - 8 * i] == Zeros(8)
    ensures Network32(Crc32(s))[i] == Network32(Crc32(t))[i]
  {
    hide Bits, Network32, Crc32, Difference;
    forall j | 0 <= j < 8
      ensures Bits(8, Network32(Crc32(s))[i])[j] == Bits(8, Network32(Crc32(t))[i])[j]
    {
      ChecksumsDiffer(s, t, i, j);
      assert Difference(s, t)[24 - 8 * i..32 - 8 * i][j] == Difference(s, t)[24 - 8 * i + j];
    }
    SameBits(Network32(Crc32(s))[i], Network32(Crc32(t))[i]);
  }

  /** Behind the pattern the checksum changes by 0xF4 and 0xEE in its first two
      bytes and not at all in the others. */
  lemma PatternChecksum(p: seq<byte>, x: seq<byte>, y: seq<byte>)
    requires |x| == |y| == 2 && Xor(Packed(x), Packed(y)) == PATTERN
    ensures var u, v := Network32(Crc32(p + x)), Network32(Crc32(p + y));
            DiffersBy(u[0], v[0], 0xF4) && DiffersBy(u[1], v[1], 0xEE) && u[2] == v[2] && u[3] == v[3]
  {
    hide BitSteps, Xor, XorBits, Bits, Network32, Crc32, Packed, Difference, DiffersBy;
    var d := Difference(p + x, p + y);
    DifferenceSteps(p, x, y);
    PatternHides();
    assert d[24..] == Bits(8, 0xF4) && d[16..24] == Bits(8, 0xEE) && d[8..16] == d[..8] == Zeros(8);
    ChecksumByte(p + x, p + y, 0, 0xF4);
    ChecksumByte(p + x, p + y, 1, 0xEE);
    ChecksumByteSame(p + x, p + y, 2);
    ChecksumByteSame(p + x, p + y, 3);
  }

  /** The last `k` covered bytes and the first `4 - k` bytes of the checksum. */
  lemma StraddleOnlyPattern(p: seq<byte>, x: seq<byte>, y: seq<byte>)
    requires 1 <= |x| == |y| <= 3
    requires Network32(Crc32(p + x))[4 - |x|..] == Network32(Crc32(p + y))[4 - |x|..]
    ensures x == y || (|x| == 2 && Xor(Packed(x), Packed(y)) == PATTERN)
  {
    hide BitSteps, Xor, XorBits, Network32, Crc32, Packed, Hidden, Zero, Bits;
    AgreeingTailHides(p, x, y);
    var m := Xor(Packed(x), Packed(y));
    if |x| == 2 {
      TwoBytesHide(m);
    } else {
      OddBytesShow(8 * |x|, m);
    }
    if Zero(m) {
      SamePacked(x, y);
    }
  }

  /** What a miss means for the parts. */
  lemma MissedParts(p: seq<byte>, x: seq<byte>, y: seq<byte>, u: seq<byte>, c: seq<byte>)
    requires |x| == |y| == 2 && |u| == |c| == 4
    ensures Missed(p + x + u, p + y + c, |p + x|) <==>
            && DiffersBy(x[0], y[0], 0x61) && DiffersBy(x[1], y[1], 0xD8)
            && DiffersBy(u[0], c[0], 0xF4) && DiffersBy(u[1], c[1], 0xEE) && u[2..] == c[2..]
  {
    hide DiffersBy;
    var e, d, b := p + x + u, p + y + c, |p + x|;
    assert e[..b - 2] == p && d[..b - 2] == p && e[b + 2..] == u[2..] && d[b + 2..] == c[2..];
  }

  /** Of all changes of the last covered bytes and the first bytes of the
      checksum, four bytes together, only the pattern is missed. */
  lemma StraddleIff(p: seq<byte>, x: seq<byte>, y: seq<byte>, c: seq<byte>)
    requires 1 <= |x| == |y| <= 3 && |c| == 4 && Network32(Crc32(p + x))[4 - |x|..] == c[4 - |x|..]
    ensures c == Network32(Crc32(p + y)) <==>
            || (x == y && c == Network32(Crc32(p + x)))
            || (|x| == 2 && Missed(Sealed(p + x), p + y + c, |p + x|))
  {
    hide Network32, Crc32, DiffersBy, Packed, Xor, XorBits, Bits, Missed;
    var u, v := Network32(Crc32(p + x)), Network32(Crc32(p + y));
    if c == v {
      StraddleOnlyPattern(p, x, y);
    }
    if |x| == 2 {
      PatternIff(x, y);
      MissedParts(p, x, y, u, c);
      if Xor(Packed(x), Packed(y)) == PATTERN {
        PatternChecksum(p, x, y);
        SameWord(u, v, c);
      }
    }
  }

  lemma SameWord(u: seq<byte>, v: seq<byte>, c: seq<byte>)
    requires |u| == |v| == |c| == 4 && u[2..] == c[2..]
    requires DiffersBy(u[0], v[0], 0xF4) && DiffersBy(u[1], v[1], 0xEE) && u[2] == v[2] && u[3] == v[3]
    ensures DiffersBy(u[0], c[0], 0xF4) && DiffersBy(u[1], c[1], 0xEE) <==> c == v
  {
    hide DiffersBy;
    assert u[2] == u[2..][0] == c[2] && u[3] == u[2..][1] == c[3];
    if DiffersBy(u[0], c[0], 0xF4) && DiffersBy(u[1], c[1], 0xEE) {
      DiffersByInjective(u[0], v[0], c[0], 0xF4);
      DiffersByInjective(u[1], v[1], c[1], 0xEE);
    }
  }

  lemma DiffersFromSelf(a: byte, pattern: byte)
    requires DiffersBy(a, a, pattern)
    ensures pattern == 0
  {
    hide Bits;
    assert XorBits(Bits(8, a), Bits(8, a)) == Zeros(8);
    assert Power2(8) == 256;
    ValueOfBits(8, pattern);
    ValueOfZeros(8);
  }

  lemma MissedDiffers(e: seq<byte>, d: seq<byte>, b: nat)
    requires Missed(e, d, b)
    ensures e[b - 2] != d[b - 2] && e[b + 1] != d[b + 1]
  {
    hide DiffersBy;
    if e[b - 2] == d[b - 2] {
      DiffersFromSelf(e[b - 2], 0x61);
    }
    if e[b + 1] == d[b + 1] {
      DiffersFromSelf(e[b + 1], 0xEE);
    }
  }

  /** A burst that is missed begins two bytes in front of the boundary. */
  lemma MissedPlace(e: seq<byte>, d: seq<byte>, b: nat, at: nat)
    requires Burst(e, d, at) && Missed(e, d, b)
    ensures at == b - 2
  {
    hide DiffersBy;
    MissedDiffers(e, d, b);
    var lo, hi := Min(at, |e|), Min(at + 4, |e|);
    assert forall k :: 0 <= k < lo ==> e[k] == e[..lo][k] && d[k] == d[..lo][k];
    assert forall k :: hi <= k < |e| ==> e[k] == e[hi..][k - hi] && d[k] == d[hi..][k - hi];
  }

  /** Both parts have the right checksum again, and nothing else hides that. */
  ghost predicate Unnoticed(s: seq<byte>, t: seq<byte>, c: seq<byte>) {
    c == Network32(Crc32(t)) <==> (s == t && c == Network32(Crc32(s))) || Missed(Sealed(s), t + c, |s|)
  }

  lemma BurstInChecksum(s: seq<byte>, t: seq<byte>, c: seq<byte>, at: nat)
    requires |s| == |t| && |c| == 4 && Burst(Sealed(s), t + c, at) && at >= |s|
    ensures Unnoticed(s, t, c)
  {
    hide Network32, Crc32, DiffersBy;
    var e, d, n := Sealed(s), t + c, |s|;
    assert s == e[..Min(at, n + 4)][..n] && t == d[..Min(at, n + 4)][..n];
    if Missed(e, d, n) {
      MissedDiffers(e, d, n);
    }
  }

  lemma BurstInFront(s: seq<byte>, t: seq<byte>, c: seq<byte>, at: nat)
    requires |s| == |t| && |c| == 4 && Burst(Sealed(s), t + c, at) && at + 4 <= |s|
    ensures Unnoticed(s, t, c)
  {
    hide Network32, Crc32, DiffersBy;
    var e, d, n, u := Sealed(s), t + c, |s|, Network32(Crc32(s));
    if Missed(e, d, n) {
      MissedDiffers(e, d, n);
    }
    assert e[at + 4..][n - at - 4..] == u && d[at + 4..][n - at - 4..] == c;
    assert s[..at] == e[..at] && t[..at] == d[..at];
    assert s[at + 4..] == e[at + 4..][..n - at - 4] && t[at + 4..] == d[at + 4..][..n - at - 4];
    BurstChangesCrc(s, t, at);
    if c == Network32(Crc32(t)) {
      NetworkInjective32(Crc32(s), Crc32(t));
    }
  }

  lemma BurstAcross(s: seq<byte>, t: seq<byte>, c: seq<byte>, at: nat)
    requires |s| == |t| && |c| == 4 && Burst(Sealed(s), t + c, at) && at < |s| < at + 4
    ensures Unnoticed(s, t, c)
  {
    hide Network32, Crc32, DiffersBy;
    var e, d, u := Sealed(s), t + c, Network32(Crc32(s));
    var p, x, y := s[..at], s[at..], t[at..];
    assert e[..at] == p && d[..at] == t[..at];
    assert s == p + x && t == p + y;
    assert e[at + 4..] == u[4 - |x|..] && d[at + 4..] == c[4 - |x|..];
    StraddleIff(p, x, y, c);
    if Missed(e, d, |s|) {
      MissedPlace(e, d, |s|, at);
    }
  }

  /** A sequence with its checksum behind it, in which at most four consecutive
      bytes were replaced, has the right checksum again if and only if nothing was
      changed, or the pattern around the boundary. */
  lemma SealedBurst(s: seq<byte>, t: seq<byte>, c: seq<byte>, at: nat)
    requires |s| == |t| && |c| == 4 && Burst(Sealed(s), t + c, at)
    ensures c == Network32(Crc32(t)) <==> (s == t && c == Network32(Crc32(s))) || Missed(Sealed(s), t + c, |s|)
  {
    hide Network32, Crc32, Missed, Sealed;
    if at >= |s| {
      BurstInChecksum(s, t, c, at);
    } else if at + 4 <= |s| {
      BurstInFront(s, t, c, at);
    } else {
      BurstAcross(s, t, c, at);
    }
  }

  /** The same, with the last four bytes as the checksum. */
  lemma SealedBurstAt(e: seq<byte>, d: seq<byte>, n: nat, at: nat)
    requires |e| == n + 4 && e == Sealed(e[..n]) && Burst(e, d, at)
    ensures d[n..] == Network32(Crc32(d[..n])) <==> d == e || Missed(e, d, n)
  {
    hide Network32, Crc32, Missed, Burst;
    assert |d| == n + 4 by { BurstLength(e, d, at); }
    assert d == d[..n] + d[n..];
    SealedBurst(e[..n], d[..n], d[n..], at);
  }

  lemma BurstLength(e: seq<byte>, d: seq<byte>, at: nat)
    requires Burst(e, d, at)
    ensures |e| == |d|
  {
  }
}
