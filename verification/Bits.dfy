/**
 The bit operations on 32-bit registers the CRC code uses, and the few laws of each that
 its algebra needs. Every law is about one or two operators only, so that no proof
 elsewhere has to look inside a bit vector.
 */
module Bits {
  const POLYNOMIAL: bv32 := 0xEDB88320
  const ALL_ONES: bv32 := 0xFFFFFFFF

  function Xor(a: bv32, b: bv32): bv32 { a ^ b }

  predicate Low(c: bv32) { c & 1 == 1 }

  function Right(c: bv32): bv32 { c >> 1 }

  function Left(c: bv32): bv32 { c << 1 }

  lemma XorZero(a: bv32)
    ensures Xor(a, 0) == a && Xor(0, a) == a
  {
  }

  lemma XorSwap(a: bv32, b: bv32)
    ensures Xor(a, b) == Xor(b, a)
  {
  }

  lemma XorAssoc(a: bv32, b: bv32, c: bv32)
    ensures Xor(Xor(a, b), c) == Xor(a, Xor(b, c))
  {
  }

  lemma XorSelf(a: bv32)
    ensures Xor(a, a) == 0
  {
  }

  /** Exclusive or with a fixed value moves from one side of an equation to the other. */
  lemma XorCancels(a: bv32, b: bv32, c: bv32)
    ensures Xor(a, b) == c <==> a == Xor(b, c)
  {
    XorAssoc(a, b, b);
    XorAssoc(b, c, b);
    XorAssoc(c, b, b);
    XorSwap(b, c);
    XorSelf(b);
    XorZero(a);
    XorZero(c);
    XorSwap(b, Xor(a, b));
  }

  lemma XorMiddle(a: bv32, b: bv32, c: bv32, d: bv32)
    ensures Xor(Xor(a, b), Xor(c, d)) == Xor(Xor(a, c), Xor(b, d))
  {
    XorAssoc(a, b, Xor(c, d));
    XorAssoc(a, c, Xor(b, d));
    XorAssoc(b, c, d);
    XorAssoc(c, b, d);
    XorSwap(b, c);
  }

  lemma LowXor(a: bv32, b: bv32)
    ensures Low(Xor(a, b)) == (Low(a) != Low(b))
  {
    assert (a ^ b) & 1 == (a & 1) ^ (b & 1);
    assert a & 1 == 0 || a & 1 == 1;
    assert b & 1 == 0 || b & 1 == 1;
  }

  lemma RightXor(a: bv32, b: bv32)
    ensures Right(Xor(a, b)) == Xor(Right(a), Right(b))
  {
    assert (a ^ b) >> 1 == (a >> 1) ^ (b >> 1);
  }

  lemma LeftXor(a: bv32, b: bv32)
    ensures Left(Xor(a, b)) == Xor(Left(a), Left(b))
  {
    assert (a ^ b) << 1 == (a << 1) ^ (b << 1);
  }

  lemma ShiftsOfZero()
    ensures Right(0) == 0 && Left(0) == 0 && !Low(0) && Low(1)
  {
  }

  /** A register is its low bit together with the rest moved back up. */
  lemma SplitLow(c: bv32)
    ensures c == Xor(if Low(c) then 1 else 0, Left(Right(c)))
  {
    assert c & 1 == 0 || c & 1 == 1;
    assert c == (c & 1) ^ ((c >> 1) << 1);
  }

  /** Moving up by one and back loses nothing while the top bit is clear. */
  lemma LeftThenRight(c: bv32)
    requires c & 0x7FFF_FFFF == c
    ensures Right(Left(c)) == c && !Low(Left(c))
  {
    assert (c << 1) & 1 == 0;
    assert (c << 1) >> 1 == c & 0x7FFF_FFFF;
  }

  /** `n` right shifts, one at a time. */
  function Rights(c: bv32, n: nat): bv32
    decreases n
  {
    if n == 0 then c else Rights(Right(c), n - 1)
  }

  lemma {:induction false} RightsCompose(c: bv32, m: nat, n: nat)
    ensures Rights(c, m + n) == Rights(Rights(c, m), n)
    decreases m
  {
    if m > 0 {
      RightsCompose(Right(c), m - 1, n);
    }
  }

  lemma EightRights(c: bv32)
    ensures Rights(c, 8) == c >> 8
  {
    assert Rights(c, 8) == Right(Right(Right(Right(Right(Right(Right(Right(c))))))));
  }

  /** A register has 32 bits to lose. */
  lemma RightsRunOut(c: bv32)
    ensures Rights(c, 32) == 0
  {
    var c8 := c >> 8;
    var c16 := c8 >> 8;
    var c24 := c16 >> 8;
    EightRights(c);
    EightRights(c8);
    EightRights(c16);
    EightRights(c24);
    RightsCompose(c, 8, 24);
    RightsCompose(c8, 8, 16);
    RightsCompose(c16, 8, 8);
    assert c24 >> 8 == 0;
  }
}
