/** The linear algebra of the CRC: which changes of up to three bytes leave the low
    part of the register as it was, so that only the high part, which is sent first,
    can tell. */
module CrcKernel {
  import opened Bytes
  import opened Crc

  /** The exponents with coefficient one in the reversed polynomial. */
  predicate Term(t: nat) {
    || t == 5 || t == 8 || t == 9 || t == 15 || t == 19 || t == 20 || t == 21 || t == 23
    || t == 24 || t == 26 || t == 27 || t == 29 || t == 30 || t == 31
  }

  lemma Bits20()
    ensures Bits(8, 0x20) == [false, false, false, false, false, true, false, false]
  {
  }

  lemma Bits83()
    ensures Bits(8, 0x83) == [true, true, false, false, false, false, false, true]
  {
  }

  lemma BitsB8()
    ensures Bits(8, 0xB8) == [false, false, false, true, true, true, false, true]
  {
  }

  lemma BitsED()
    ensures Bits(8, 0xED) == [true, false, true, true, false, true, true, true]
  {
  }

  lemma Bits61()
    ensures Bits(8, 0x61) == [true, false, false, false, false, true, true, false]
  {
  }

  lemma BitsD8()
    ensures Bits(8, 0xD8) == [false, false, false, true, true, false, true, true]
  {
  }

  lemma BitsEE()
    ensures Bits(8, 0xEE) == [false, true, true, true, false, true, true, true]
  {
  }

  lemma BitsF4()
    ensures Bits(8, 0xF4) == [false, false, true, false, true, true, true, true]
  {
  }

  lemma Terms(t: nat)
    requires t < 32
    ensures POLYNOMIAL[t] == Term(t)
  {
    hide Bits;
    Bits20();
    Bits83();
    BitsB8();
    BitsED();
  }

  /** The ones that fall out of `x` in `n` steps. */
  function Out(n: nat, x: register): (out: seq<bool>)
    ensures |out| == n
  {
    if n == 0 then [] else Out(n - 1, x) + [BitSteps(n - 1, x)[0]]
  }

  function Fell(n: nat, out: seq<bool>, j: nat, t: nat): bool
    requires n <= |out|
  {
    j <= t < j + n && out[j + n - 1 - t]
  }

  /** What the first `n` of them have put into place `j` of the register. */
  function Row(n: nat, out: seq<bool>, j: nat): bool
    requires n <= |out|
  {
    Fell(n, out, j, 5) != (Fell(n, out, j, 8) != (Fell(n, out, j, 9) != (Fell(n, out, j, 15) !=
    (Fell(n, out, j, 19) != (Fell(n, out, j, 20) != (Fell(n, out, j, 21) != (Fell(n, out, j, 23) !=
    (Fell(n, out, j, 24) != (Fell(n, out, j, 26) != (Fell(n, out, j, 27) != (Fell(n, out, j, 29) !=
    (Fell(n, out, j, 30) != Fell(n, out, j, 31)))))))))))))
  }

  lemma FellNext(n: nat, out: seq<bool>, b: bool, j: nat, t: nat)
    requires |out| == n
    ensures Fell(n + 1, out + [b], j, t) == if t == j then b else Fell(n, out, j + 1, t)
    ensures !Fell(n, out, j + 1, j)
  {
  }

  lemma RowNext(n: nat, out: seq<bool>, b: bool, j: nat)
    requires |out| == n
    ensures Row(n + 1, out + [b], j) == (Row(n, out, j + 1) != (b && Term(j)))
  {
    hide Fell;
    forall t: nat {:trigger Fell(n + 1, out + [b], j, t)}
      ensures Fell(n + 1, out + [b], j, t) == if t == j then b else Fell(n, out, j + 1, t)
    {
      FellNext(n, out, b, j, t);
    }
    FellNext(n, out, b, j, j);
  }

  lemma LastStep(n: nat, x: register)
    ensures BitSteps(n + 1, x) == BitStep(BitSteps(n, x))
  {
    var y := BitSteps(n, x);
    BitStepsCompose(x, n, 1);
    assert BitSteps(1, y) == BitSteps(0, BitStep(y));
  }

  lemma StepPlace(y: register, j: nat)
    requires j < 32
    ensures BitStep(y)[j] == ((j < 31 && y[j + 1]) != (y[0] && Term(j)))
  {
    hide Term;
    Terms(j);
  }

  lemma NothingBeyond(n: nat, out: seq<bool>)
    requires n <= |out|
    ensures !Row(n, out, 32)
  {
  }

  lemma NoSteps(x: register, j: nat)
    requires j < 32
    ensures BitSteps(0, x)[j] == (x[j] != Row(0, [], j))
  {
  }

  /** After `n` steps every place holds what was shifted there, changed by what
      fell out on the way. */
  lemma {:induction false} StepsByRows(n: nat, x: register, j: nat)
    requires j < 32
    ensures BitSteps(n, x)[j] == ((j + n < 32 && x[j + n]) != Row(n, Out(n, x), j))
    decreases n
  {
    hide BitSteps, BitStep, Term, Row, Bits, Xor, XorBits;
    if n == 0 {
      NoSteps(x, j);
    } else {
      var y, out := BitSteps(n - 1, x), Out(n - 1, x);
      LastStep(n - 1, x);
      StepPlace(y, j);
      RowNext(n - 1, out, y[0], j);
      if j < 31 {
        StepsByRows(n - 1, x, j + 1);
      } else {
        NothingBeyond(n - 1, out);
      }
    }
  }

  lemma OutAt(n: nat, x: register, i: nat)
    requires i < n
    ensures Out(n, x)[i] == BitSteps(i, x)[0] && Out(n, x)[..i] == Out(i, x)
    decreases n
  {
    hide BitSteps;
    if i < n - 1 {
      OutAt(n - 1, x, i);
      assert Out(n, x)[..i] == Out(n - 1, x)[..i];
    }
  }

  lemma RowOfPrefix(n: nat, out: seq<bool>)
    requires n <= |out|
    ensures Row(n, out[..n], 0) == Row(n, out, 0)
  {
  }

  /** What fell out determines the register, and the other way round. */
  lemma OutDecides(n: nat, x: register, i: nat)
    requires i < n <= 32
    ensures Out(n, x)[i] == (x[i] != Row(i, Out(n, x), 0))
  {
    hide BitSteps, Row;
    OutAt(n, x, i);
    StepsByRows(i, x, 0);
    RowOfPrefix(i, Out(n, x));
  }

  predicate Zero(x: register) {
    forall i :: 0 <= i < 32 ==> !x[i]
  }

  /** The register is zero from place `n` on, and after `n` steps it is zero below
      place `n`. */
  predicate Hidden(n: nat, x: register) {
    n <= 32 && (forall i :: n <= i < 32 ==> !x[i]) && (forall j :: 0 <= j < n ==> !BitSteps(n, x)[j])
  }

  lemma HiddenRows(n: nat, x: register)
    requires Hidden(n, x)
    ensures forall j :: 0 <= j < n ==> !Row(n, Out(n, x), j)
  {
    hide BitSteps, Row;
    forall j | 0 <= j < n
      ensures !Row(n, Out(n, x), j)
    {
      StepsByRows(n, x, j);
    }
  }

  lemma Solve8(o: seq<bool>)
    requires |o| == 8 && forall j :: 0 <= j < 8 ==> !Row(8, o, j)
    ensures forall i :: 0 <= i < 8 ==> !o[i]
  {
    assert !Row(8, o, 7) && !Row(8, o, 6) && !Row(8, o, 5) && !Row(8, o, 4);
    assert !Row(8, o, 3) && !Row(8, o, 2) && !Row(8, o, 1) && !Row(8, o, 0);
  }

  lemma Solve16(o: seq<bool>)
    requires |o| == 16 && forall j :: 0 <= j < 16 ==> !Row(16, o, j)
    ensures forall i :: 0 <= i < 16 ==> o[i] == (o[0] && (i == 0 || i == 5 || i == 9 || i == 10 || i == 12 || i == 15))
  {
    assert !Row(16, o, 15) && !Row(16, o, 14) && !Row(16, o, 13) && !Row(16, o, 12);
    assert !Row(16, o, 11) && !Row(16, o, 10) && !Row(16, o, 9) && !Row(16, o, 8);
    assert !Row(16, o, 7) && !Row(16, o, 6) && !Row(16, o, 5) && !Row(16, o, 4);
    assert !Row(16, o, 3) && !Row(16, o, 2) && !Row(16, o, 1) && !Row(16, o, 0);
  }

  lemma Solve24(o: seq<bool>)
    requires |o| == 24 && forall j :: 0 <= j < 24 ==> !Row(24, o, j)
    ensures forall i :: 0 <= i < 24 ==> !o[i]
  {
    assert !Row(24, o, 23) && !Row(24, o, 22) && !Row(24, o, 21) && !Row(24, o, 20);
    assert !Row(24, o, 19) && !Row(24, o, 18) && !Row(24, o, 17) && !Row(24, o, 16);
    assert !Row(24, o, 15) && !Row(24, o, 14) && !Row(24, o, 13) && !Row(24, o, 12);
    assert !Row(24, o, 11) && !Row(24, o, 10) && !Row(24, o, 9) && !Row(24, o, 8);
    assert !Row(24, o, 7) && !Row(24, o, 6) && !Row(24, o, 5) && !Row(24, o, 4);
    assert !Row(24, o, 3) && !Row(24, o, 2) && !Row(24, o, 1) && !Row(24, o, 0);
  }

  lemma NothingFell(n: nat, x: register)
    requires n <= 32 && (forall i :: n <= i < 32 ==> !x[i]) && forall i :: 0 <= i < n ==> !Out(n, x)[i]
    ensures Zero(x)
  {
    hide BitSteps, Out;
    forall i | 0 <= i < n
      ensures !x[i]
    {
      OutDecides(n, x, i);
    }
  }

  /** One byte or three bytes cannot hide: only no change at all leaves the low
      part of the register as it was. */
  lemma OddBytesShow(n: nat, x: register)
    requires Hidden(n, x) && (n == 8 || n == 24)
    ensures Zero(x)
  {
    hide BitSteps, Row, Out;
    HiddenRows(n, x);
    if n == 8 {
      Solve8(Out(8, x));
    } else {
      Solve24(Out(24, x));
    }
    NothingFell(n, x);
  }

  /** The one change of two bytes that hides, 0x61 and 0xD8, as it is added to the
      register. */
  const PATTERN: register := Bits(8, 0x61) + Bits(8, 0xD8) + Zeros(16)

  predicate PatternOut(i: nat) {
    i == 0 || i == 5 || i == 9 || i == 10 || i == 12 || i == 15
  }

  lemma OutOfPattern()
    ensures forall i :: 0 <= i < 16 ==> Out(16, PATTERN)[i] == PatternOut(i)
  {
    hide BitSteps, Out, Bits;
    var o := Out(16, PATTERN);
    Bits61();
    BitsD8();
    forall i | 0 <= i < 16
      ensures o[i] == (PATTERN[i] != Row(i, o, 0))
    {
      hide Row;
      OutDecides(16, PATTERN, i);
    }
    assert o[0] == PatternOut(0);
    assert o[1] == PatternOut(1);
    assert o[2] == PatternOut(2);
    assert o[3] == PatternOut(3);
    assert o[4] == PatternOut(4);
    assert o[5] == PatternOut(5);
    assert o[6] == PatternOut(6);
    assert o[7] == PatternOut(7);
    assert o[8] == PatternOut(8);
    assert o[9] == PatternOut(9);
    assert o[10] == PatternOut(10);
    assert o[11] == PatternOut(11);
    assert o[12] == PatternOut(12);
    assert o[13] == PatternOut(13);
    assert o[14] == PatternOut(14);
    assert o[15] == PatternOut(15);
  }

  lemma SameOut(n: nat, x: register, y: register)
    requires n <= 32 && (forall i :: n <= i < 32 ==> x[i] == y[i]) && Out(n, x) == Out(n, y)
    ensures x == y
  {
    hide BitSteps, Out, Row;
    forall i | 0 <= i < n
      ensures x[i] == y[i]
    {
      OutDecides(n, x, i);
      OutDecides(n, y, i);
    }
  }

  /** Two bytes hide only behind the pattern. */
  lemma TwoBytesHide(x: register)
    requires Hidden(16, x)
    ensures x == PATTERN || Zero(x)
  {
    hide BitSteps, Row, Out, Hidden;
    assert forall i :: 16 <= i < 32 ==> !x[i] by { HiddenAbove(x); }
    HiddenRows(16, x);
    Solve16(Out(16, x));
    if Out(16, x)[0] {
      OutOfPattern();
      SameOut(16, x, PATTERN);
    } else {
      NothingFell(16, x);
    }
  }

  lemma HiddenAbove(x: register)
    requires Hidden(16, x)
    ensures forall i :: 16 <= i < 32 ==> !x[i]
  {
  }

  /** And the pattern does hide; what it leaves in the high part is 0xEE and
      0xF4. */
  lemma PatternHides()
    ensures BitSteps(16, PATTERN) == Zeros(16) + Bits(8, 0xEE) + Bits(8, 0xF4)
  {
    hide BitSteps, Out, Bits;
    BitsEE();
    BitsF4();
    OutOfPattern();
    var o := Out(16, PATTERN);
    forall j | 0 <= j < 32
      ensures BitSteps(16, PATTERN)[j] == Row(16, o, j)
    {
      hide Row;
      StepsByRows(16, PATTERN, j);
    }
    assert !Row(16, o, 0) && !Row(16, o, 1) && !Row(16, o, 2) && !Row(16, o, 3);
    assert !Row(16, o, 4) && !Row(16, o, 5) && !Row(16, o, 6) && !Row(16, o, 7);
    assert !Row(16, o, 8) && !Row(16, o, 9) && !Row(16, o, 10) && !Row(16, o, 11);
    assert !Row(16, o, 12) && !Row(16, o, 13) && !Row(16, o, 14) && !Row(16, o, 15);
    assert !Row(16, o, 16) && Row(16, o, 17) && Row(16, o, 18) && Row(16, o, 19);
    assert !Row(16, o, 20) && Row(16, o, 21) && Row(16, o, 22) && Row(16, o, 23);
    assert !Row(16, o, 24) && !Row(16, o, 25) && Row(16, o, 26) && !Row(16, o, 27);
    assert Row(16, o, 28) && Row(16, o, 29) && Row(16, o, 30) && Row(16, o, 31);
  }
}
