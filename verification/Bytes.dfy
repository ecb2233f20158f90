/** Bytes, 16- and 32-bit words, the order in which a little-endian machine puts
    them into memory, and their bits. */
module Bytes {
  type bit = x: int | 0 <= x < 2
  type byte = x: int | 0 <= x < 256
  type word16 = x: int | 0 <= x < 0x1_0000
  type word32 = x: int | 0 <= x < 0x1_0000_0000

  /** The bytes of a 16-bit word as they lie in memory, low byte first. */
  function Memory16(x: word16): seq<byte> {
    [x % 0x100, x / 0x100]
  }

  function Load16(s: seq<byte>, i: nat): word16
    requires i + 2 <= |s|
  {
    var b0: int, b1: int := s[i], s[i + 1];
    b0 + 0x100 * b1
  }

  /** The bytes of a 32-bit word as they lie in memory, low byte first. */
  function Memory32(x: word32): seq<byte> {
    [x % 0x100, x / 0x100 % 0x100, x / 0x1_0000 % 0x100, x / 0x100_0000]
  }

  function Load32(s: seq<byte>, i: nat): word32
    requires i + 4 <= |s|
  {
    var b0: int, b1: int, b2: int, b3: int := s[i], s[i + 1], s[i + 2], s[i + 3];
    b0 + 0x100 * b1 + 0x1_0000 * b2 + 0x100_0000 * b3
  }

  /** `htons` and `ntohs`: the same bytes in the other order. */
  function Swap16(x: word16): word16 {
    var m := Memory16(x);
    Load16([m[1], m[0]], 0)
  }

  /** `htonl` and `ntohl`. */
  function Swap32(x: word32): word32 {
    var m := Memory32(x);
    Load32([m[3], m[2], m[1], m[0]], 0)
  }

  lemma LoadSlice16(s: seq<byte>, i: nat)
    requires i + 2 <= |s|
    ensures Load16(s, i) == Load16(s[i..i + 2], 0)
  {
  }

  lemma LoadSlice32(s: seq<byte>, i: nat)
    requires i + 4 <= |s|
    ensures Load32(s, i) == Load32(s[i..i + 4], 0)
  {
  }

  /** Four bytes are determined by the word they make up. */
  lemma LoadInjective32(s: seq<byte>, t: seq<byte>)
    requires |s| == |t| == 4 && Load32(s, 0) == Load32(t, 0)
    ensures s == t
  {
    var s0: int, s1: int, s2: int, s3: int := s[0], s[1], s[2], s[3];
    var t0: int, t1: int, t2: int, t3: int := t[0], t[1], t[2], t[3];
    var u, v := s1 + 0x100 * s2 + 0x1_0000 * s3, t1 + 0x100 * t2 + 0x1_0000 * t3;
    assert s0 + 0x100 * u == t0 + 0x100 * v;
    assert u == v;
    assert s1 + 0x100 * (s2 + 0x100 * s3) == t1 + 0x100 * (t2 + 0x100 * t3);
    assert s2 + 0x100 * s3 == t2 + 0x100 * t3;
  }

  lemma Swap16Twice(x: word16)
    ensures Swap16(Swap16(x)) == x
  {
  }

  lemma LoadMemory32(x: word32)
    ensures Load32(Memory32(x), 0) == x
  {
    var u, v := x / 0x100, x / 0x1_0000;
    assert x == 0x100 * u + x % 0x100;
    assert u / 0x100 == v && u == 0x100 * v + u % 0x100;
    assert v / 0x100 == x / 0x100_0000 && v == 0x100 * (v / 0x100) + v % 0x100;
  }

  lemma Swap32Twice(x: word32)
    ensures Swap32(Swap32(x)) == x
  {
    var m := Memory32(x);
    var r := [m[3], m[2], m[1], m[0]];
    var y := Load32(r, 0);
    LoadMemory32(y);
    LoadInjective32(Memory32(y), r);
    LoadMemory32(x);
  }

  /** Bytes are read as `x` exactly when they are the bytes of `x`. */
  lemma LoadMemorySlice16(s: seq<byte>, i: nat, x: word16)
    requires i + 2 <= |s|
    ensures Load16(s, i) == x <==> s[i..i + 2] == Memory16(x)
  {
    var lo: int, hi: int := s[i], s[i + 1];
    assert (lo + 0x100 * hi) % 0x100 == lo && (lo + 0x100 * hi) / 0x100 == hi;
    assert s[i..i + 2] == [lo, hi];
  }

  lemma LoadMemorySlice32(s: seq<byte>, i: nat, x: word32)
    requires i + 4 <= |s|
    ensures Load32(s, i) == x <==> s[i..i + 4] == Memory32(x)
  {
    LoadSlice32(s, i);
    LoadMemory32(x);
    if Load32(s, i) == x {
      LoadInjective32(s[i..i + 4], Memory32(x));
    }
  }

  /** A word in network order. */
  function Network32(x: word32): (r: seq<byte>)
    ensures |r| == 4
  {
    Memory32(Swap32(x))
  }

  function LoadNetwork32(s: seq<byte>, i: nat): word32
    requires i + 4 <= |s|
  {
    Swap32(Load32(s, i))
  }

  /** Four bytes are read as `x` exactly when they are `x` in network order. */
  lemma NetworkSlice32(s: seq<byte>, i: nat, x: word32)
    requires i + 4 <= |s|
    ensures LoadNetwork32(s, i) == x <==> s[i..i + 4] == Network32(x)
  {
    Swap32Twice(x);
    Swap32Twice(Load32(s, i));
    LoadMemorySlice32(s, i, Swap32(x));
  }

  lemma NetworkInjective32(x: word32, y: word32)
    requires Network32(x) == Network32(y)
    ensures x == y
  {
    LoadMemory32(Swap32(x));
    LoadMemory32(Swap32(y));
    Swap32Twice(x);
    Swap32Twice(y);
  }

  /** The `n` low bits of `x`, lowest first. */
  function Bits(n: nat, x: nat): (r: seq<bool>)
    ensures |r| == n
  {
    if n == 0 then [] else [x % 2 == 1] + Bits(n - 1, x / 2)
  }

  function Value(bits: seq<bool>): nat {
    if bits == [] then 0 else (if bits[0] then 1 else 0) + 2 * Value(bits[1..])
  }

  function Power2(n: nat): nat {
    if n == 0 then 1 else 2 * Power2(n - 1)
  }

  lemma {:induction false} ValueBound(bits: seq<bool>)
    ensures Value(bits) < Power2(|bits|)
  {
    if bits != [] {
      ValueBound(bits[1..]);
    }
  }

  lemma {:induction false} ValueOfBits(n: nat, x: nat)
    requires x < Power2(n)
    ensures Value(Bits(n, x)) == x
  {
    if n > 0 {
      ValueOfBits(n - 1, x / 2);
      assert Bits(n, x)[1..] == Bits(n - 1, x / 2);
    }
  }

  lemma {:induction false} ValueInjective(a: seq<bool>, b: seq<bool>)
    requires |a| == |b| && Value(a) == Value(b)
    ensures a == b
  {
    if a != [] {
      ValueInjective(a[1..], b[1..]);
      assert a == [a[0]] + a[1..] && b == [b[0]] + b[1..];
    }
  }

  lemma BitsOfValue(bits: seq<bool>)
    ensures Bits(|bits|, Value(bits)) == bits
  {
    ValueBound(bits);
    ValueOfBits(|bits|, Value(bits));
    ValueInjective(Bits(|bits|, Value(bits)), bits);
  }

  lemma MemoryLoad32(s: seq<byte>)
    requires |s| == 4
    ensures Memory32(Load32(s, 0)) == s
  {
    LoadMemory32(Load32(s, 0));
    LoadInjective32(Memory32(Load32(s, 0)), s);
  }

  lemma NetworkReverses(s: seq<byte>)
    requires |s| == 4
    ensures Network32(Load32(s, 0)) == [s[3], s[2], s[1], s[0]]
  {
    MemoryLoad32(s);
    MemoryLoad32([s[3], s[2], s[1], s[0]]);
  }
}
