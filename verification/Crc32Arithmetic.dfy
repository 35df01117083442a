/**
 The CRC-32 of section 8 of RFC 1952 as a register stepped one bit at a time, and the
 matrices over GF(2) by which a prefix whose bytes are known is taken out of a checksum.
 */
module Crc32Arithmetic {
  import opened Bits
  import opened Wrappers

  // ----- The reference definition: a shift register fed one bit at a time

  /** Advances the register past one zero bit. */
  function Step(c: bv32): bv32 {
    if Low(c) then Xor(Right(c), POLYNOMIAL) else Right(c)
  }

  /** Advances the register past `n` zero bits. */
  function Steps(n: nat, c: bv32): bv32 {
    if n == 0 then c else Steps(n - 1, Step(c))
  }

  /** Feeds bytes to the register, least significant bit first. */
  function Update(c: bv32, bytes: seq<bv8>): bv32
    decreases |bytes|
  {
    if bytes == [] then c else Update(Steps(8, Xor(c, bytes[0] as bv32)), bytes[1..])
  }

  /** CRC-32/ISO-HDLC: the register starts at all ones and is inverted at the end. */
  function Crc(bytes: seq<bv8>): bv32 {
    Xor(Update(ALL_ONES, bytes), ALL_ONES)
  }

  lemma StepLinear(a: bv32, b: bv32)
    ensures Step(Xor(a, b)) == Xor(Step(a), Step(b))
  {
    var x, y, p := Right(a), Right(b), POLYNOMIAL;
    LowXor(a, b);
    RightXor(a, b);
    XorMiddle(x, if Low(a) then p else 0, y, if Low(b) then p else 0);
    XorZero(x);
    XorZero(y);
    XorZero(p);
    XorZero(Xor(x, y));
    XorCancels(p, p, 0);
  }

  lemma {:induction false} StepsLinear(n: nat, a: bv32, b: bv32)
    ensures Steps(n, Xor(a, b)) == Xor(Steps(n, a), Steps(n, b))
  {
    if n > 0 {
      StepLinear(a, b);
      StepsLinear(n - 1, Step(a), Step(b));
    }
  }

  lemma {:induction false} StepsCompose(m: nat, n: nat, c: bv32)
    ensures Steps(m + n, c) == Steps(n, Steps(m, c))
  {
    if m > 0 {
      StepsCompose(m - 1, n, Step(c));
    }
  }

  lemma {:induction false} StepsZero(n: nat)
    ensures Steps(n, 0) == 0
  {
    ShiftsOfZero();
    if n > 0 {
      StepsZero(n - 1);
    }
  }

  /** A difference in the register travels through a message as through zero bytes. */
  lemma {:induction false} UpdateAffine(c: bv32, d: bv32, bytes: seq<bv8>)
    ensures Update(Xor(c, d), bytes) == Xor(Update(c, bytes), Steps(8 * |bytes|, d))
    decreases |bytes|
  {
    if bytes != [] {
      var x, rest := bytes[0] as bv32, bytes[1..];
      assert Xor(Xor(c, d), x) == Xor(Xor(c, x), d) by {
        XorAssoc(c, d, x);
        XorAssoc(c, x, d);
        XorSwap(d, x);
      }
      StepsLinear(8, Xor(c, x), d);
      UpdateAffine(Steps(8, Xor(c, x)), Steps(8, d), rest);
      StepsCompose(8, 8 * |rest|, d);
    }
  }

  lemma {:induction false} UpdateConcat(c: bv32, a: seq<bv8>, b: seq<bv8>)
    ensures Update(c, a + b) == Update(Update(c, a), b)
    decreases |a|
  {
    if a == [] {
      assert a + b == b;
    } else {
      assert (a + b)[1..] == a[1..] + b;
      UpdateConcat(Steps(8, Xor(c, a[0] as bv32)), a[1..], b);
    }
  }

  /** The affine law for concatenation that zlib's `crc32_combine` rests on. */
  lemma CrcConcat(a: seq<bv8>, b: seq<bv8>)
    ensures Crc(a + b) == Xor(Steps(8 * |b|, Crc(a)), Crc(b))
  {
    var u, v, s := Update(ALL_ONES, a), Update(ALL_ONES, b), Steps(8 * |b|, Crc(a));
    UpdateConcat(ALL_ONES, a, b);
    assert u == Xor(ALL_ONES, Crc(a)) by {
      XorCancels(u, ALL_ONES, Crc(a));
    }
    UpdateAffine(ALL_ONES, Crc(a), b);
    XorSwap(v, s);
    XorAssoc(s, v, ALL_ONES);
  }

  // ----- GF(2) matrices: 32 rows, row i the image of bit i

  /** The rows from `i` on that the bits of `v` select, combined by exclusive or. */
  function Product(m: seq<bv32>, v: bv32, i: nat): bv32
    decreases |m| - i
  {
    if i >= |m| then 0 else Xor(if Low(v) then m[i] else 0, Product(m, Right(v), i + 1))
  }

  /** The register holding only bit `i`. */
  function Bit(i: nat): bv32 {
    if i == 0 then 1 else Left(Bit(i - 1))
  }

  /** The matrix of the operator "advance past `k` zero bits". */
  ghost predicate Advances(m: seq<bv32>, k: nat) {
    && |m| == 32
    && forall i :: 0 <= i < 32 ==> m[i] == Steps(k, Bit(i))
  }

  lemma {:induction false} ProductOfZero(m: seq<bv32>, i: nat)
    ensures Product(m, 0, i) == 0
    decreases |m| - i
  {
    ShiftsOfZero();
    if i < |m| {
      ProductOfZero(m, i + 1);
      XorZero(0);
    }
  }

  /** `Times` is linear in the vector, for any matrix. */
  lemma {:induction false} ProductLinear(m: seq<bv32>, a: bv32, b: bv32, i: nat)
    ensures Product(m, Xor(a, b), i) == Xor(Product(m, a, i), Product(m, b, i))
    decreases |m| - i
  {
    XorZero(0);
    if i < |m| {
      LowXor(a, b);
      RightXor(a, b);
      ProductLinear(m, Right(a), Right(b), i + 1);
      XorMiddle(if Low(a) then m[i] else 0, Product(m, Right(a), i + 1),
                if Low(b) then m[i] else 0, Product(m, Right(b), i + 1));
      XorZero(m[i]);
      XorCancels(m[i], m[i], 0);
    }
  }

  /** Each row of `square` is `m` applied to the same row of `m`. */
  ghost predicate IsSquareOf(square: seq<bv32>, m: seq<bv32>) {
    && |square| == |m|
    && forall n :: 0 <= n < |m| ==> square[n] == Product(m, m[n], 0)
  }

  /** Squaring a matrix row by row composes the operator with itself, for any matrix. */
  lemma {:induction false} ProductOfSquare(m: seq<bv32>, square: seq<bv32>, v: bv32, i: nat)
    requires IsSquareOf(square, m)
    ensures Product(square, v, i) == Product(m, Product(m, v, i), 0)
    decreases |m| - i
  {
    ProductOfZero(m, 0);
    if i < |m| {
      ProductOfSquare(m, square, Right(v), i + 1);
      ProductLinear(m, if Low(v) then m[i] else 0, Product(m, Right(v), i + 1), 0);
    }
  }

  /** The square of the operator for `k` bits is the operator for `2k`. */
  lemma SquareDoubles(m: seq<bv32>, square: seq<bv32>, k: nat)
    requires Advances(m, k) && IsSquareOf(square, m)
    ensures Advances(square, 2 * k)
  {
    forall i | 0 <= i < 32 ensures square[i] == Steps(2 * k, Bit(i)) {
      ProductIsSteps(m, k, m[i]);
      StepsCompose(k, k, Bit(i));
    }
  }

  /** `v` moved up by `i` bits. */
  function Raise(v: bv32, i: nat): bv32
    decreases i
  {
    if i == 0 then v else Raise(Left(v), i - 1)
  }

  lemma {:induction false} RaiseLinear(a: bv32, b: bv32, i: nat)
    ensures Raise(Xor(a, b), i) == Xor(Raise(a, i), Raise(b, i))
    decreases i
  {
    if i > 0 {
      LeftXor(a, b);
      RaiseLinear(Left(a), Left(b), i - 1);
    }
  }

  lemma {:induction false} RaiseLater(v: bv32, i: nat)
    ensures Raise(Left(v), i) == Left(Raise(v, i))
    decreases i
  {
    if i > 0 {
      RaiseLater(Left(v), i - 1);
    }
  }

  lemma {:induction false} RaiseUnit(i: nat)
    ensures Raise(0, i) == 0 && Raise(1, i) == Bit(i)
  {
    if i > 0 {
      RaiseUnit(i - 1);
      RaiseLater(1, i - 1);
      ShiftsOfZero();
    }
  }

  /** Multiplying by the advance matrix is the same as stepping the register. */
  lemma {:induction false} ProductAdvances(m: seq<bv32>, k: nat, v: bv32, i: nat)
    requires Advances(m, k) && i <= 32 && Rights(v, 32 - i) == 0
    ensures Product(m, v, i) == Steps(k, Raise(v, i))
    decreases 32 - i
  {
    StepsZero(k);
    RaiseUnit(i);
    if i < 32 {
      var low, rest := if Low(v) then 1 else 0, Right(v);
      ProductAdvances(m, k, rest, i + 1);
      SplitLow(v);
      RaiseLinear(low, Left(rest), i);
      StepsLinear(k, Raise(low, i), Raise(Left(rest), i));
    }
  }

  lemma ProductIsSteps(m: seq<bv32>, k: nat, v: bv32)
    requires Advances(m, k)
    ensures Product(m, v, 0) == Steps(k, v)
  {
    RightsRunOut(v);
    ProductAdvances(m, k, v, 0);
  }

  /** The product of a matrix and a vector over GF(2). */
  method Times(matrix: array<bv32>, vector: bv32) returns (sum: bv32)
    requires matrix.Length == 32
    ensures sum == Product(matrix[..], vector, 0)
  {
    ghost var m := matrix[..];
    sum := 0;
    var rest := vector;
    var i := 0;
    XorZero(Product(m, vector, 0));
    while i < 32 && rest != 0
      invariant 0 <= i <= 32
      invariant Xor(sum, Product(m, rest, i)) == Product(m, vector, 0)
    {
      XorAssoc(sum, if Low(rest) then m[i] else 0, Product(m, Right(rest), i + 1));
      XorZero(sum);
      if Low(rest) {
        sum := Xor(sum, matrix[i]);
      }
      i := i + 1;
      rest := Right(rest);
    }
    if i < 32 {
      ProductOfZero(m, i);
    }
    XorZero(sum);
  }

  /** Composes a matrix with itself: multiplying by the result is multiplying twice. */
  method Square(square: array<bv32>, matrix: array<bv32>)
    requires square.Length == 32 && matrix.Length == 32 && square != matrix
    modifies square
    ensures IsSquareOf(square[..], matrix[..])
    ensures forall v: bv32 {:trigger Product(square[..], v, 0)} ::
              Product(square[..], v, 0) == Product(matrix[..], Product(matrix[..], v, 0), 0)
  {
    ghost var m := matrix[..];
    for n := 0 to 32
      invariant matrix[..] == m
      invariant forall i :: 0 <= i < n ==> square[i] == Product(m, m[i], 0)
    {
      square[n] := Times(matrix, matrix[n]);
    }
    forall v: bv32 ensures Product(square[..], v, 0) == Product(m, Product(m, v, 0), 0) {
      ProductOfSquare(m, square[..], v, 0);
    }
  }

  // ----- Shifting past zero bytes, and stripping a prefix

  /** `crc` still has `length` spans of `s` zero bits to pass before it is `target`. */
  ghost predicate Owes(s: nat, length: nat, crc: bv32, target: bv32) {
    Steps(s * length, crc) == target
  }

  lemma HalveLength(s: nat, length: nat, paid: nat, rest: nat)
    requires paid == (if length % 2 != 0 then s else 0) && rest == (2 * s) * (length / 2)
    ensures s * length == paid + rest
  {
    var half := length / 2;
    assert length == 2 * half || length == 2 * half + 1;
    assert s * (2 * half) == (2 * s) * half;
  }

  /** Paying one binary digit of `length` at span `s` leaves half of it at span `2s`. */
  lemma PayDigit(s: nat, length: nat, crc: bv32, target: bv32)
    requires Owes(s, length, crc, target)
    ensures Owes(2 * s, length / 2, if length % 2 != 0 then Steps(s, crc) else crc, target)
  {
    var paid: nat, rest: nat := if length % 2 != 0 then s else 0, (2 * s) * (length / 2);
    HalveLength(s, length, paid, rest);
    StepsCompose(paid, rest, crc);
    assert Steps(0, crc) == crc;
  }

  lemma OwesAtFirst(s: nat, length: nat, crc: bv32)
    ensures Owes(s, length, crc, Steps(s * length, crc))
  {
  }

  lemma PaidOff(s: nat, crc: bv32, target: bv32)
    requires Owes(s, 0, crc, target)
    ensures crc == target
  {
    assert s * 0 == 0;
  }

  lemma BitBelow(i: nat)
    requires i < 31
    ensures Bit(i) & 0x7FFF_FFFF == Bit(i)
  {
    assert Bit(4) == 0x10;
    assert Bit(8) == 0x100;
    assert Bit(12) == 0x1000;
    assert Bit(16) == 0x1_0000;
    assert Bit(20) == 0x10_0000;
    assert Bit(24) == 0x100_0000;
    assert Bit(28) == 0x1000_0000;
  }

  /** Row 0 the polynomial and row i the bit below it: one zero bit. */
  lemma OneBitMatrix(m: seq<bv32>)
    requires |m| == 32 && m[0] == POLYNOMIAL
    requires forall i :: 1 <= i < 32 ==> m[i] == Bit(i - 1)
    ensures Advances(m, 1)
  {
    forall i | 0 <= i < 32 ensures m[i] == Steps(1, Bit(i)) {
      assert Steps(1, Bit(i)) == Step(Bit(i));
      if i > 0 {
        BitBelow(i - 1);
        LeftThenRight(Bit(i - 1));
      }
    }
  }

  /** Fills in the matrix that advances a register past one zero bit. */
  method OneBitOperator(odd: array<bv32>)
    requires odd.Length == 32
    modifies odd
    ensures Advances(odd[..], 1)
  {
    odd[0] := POLYNOMIAL;
    var row: bv32 := 1;
    for n := 1 to 32
      invariant row == Bit(n - 1)
      invariant odd[0] == POLYNOMIAL
      invariant forall i :: 1 <= i < n ==> odd[i] == Bit(i - 1)
    {
      odd[n] := row;
      row := Left(row);
    }
    OneBitMatrix(odd[..]);
  }

  /** Advances a register past `lengthBytes` zero bytes by repeated squaring. */
  method ShiftZeros(crc: bv32, lengthBytes: int) returns (r: bv32)
    ensures r == if lengthBytes <= 0 then crc else Steps(8 * lengthBytes, crc)
  {
    hide Steps, Product, Advances, IsSquareOf, Owes;
    if lengthBytes <= 0 {
      return crc;
    }
    var even, odd := new bv32[32], new bv32[32];
    OneBitOperator(odd);
    Square(even, odd);
    SquareDoubles(odd[..], even[..], 1);
    Square(odd, even);
    SquareDoubles(even[..], odd[..], 2);

    r := crc;
    var length := lengthBytes;
    ghost var span: nat, target := 4, Steps(8 * lengthBytes, crc);
    OwesAtFirst(2 * span, lengthBytes, crc);
    while true
      invariant length > 0 && Advances(odd[..], span)
      invariant Owes(2 * span, length, r, target)
      decreases length
    {
      Square(even, odd);
      SquareDoubles(odd[..], even[..], span);
      PayDigit(2 * span, length, r, target);
      ProductIsSteps(even[..], 2 * span, r);
      if length % 2 != 0 {
        r := Times(even, r);
      }
      length := length / 2;
      span := 2 * span;
      if length == 0 {
        break;
      }
      Square(odd, even);
      SquareDoubles(even[..], odd[..], span);
      PayDigit(2 * span, length, r, target);
      ProductIsSteps(odd[..], 2 * span, r);
      if length % 2 != 0 {
        r := Times(odd, r);
      }
      length := length / 2;
      span := 2 * span;
      if length == 0 {
        break;
      }
    }
    PaidOff(2 * span, r, target);
  }

  /** What remains of a whole-file CRC once the prefix's contribution is removed. */
  function StripPrefix(whole: bv32, prefix: seq<bv8>, suffixLength: int): Option<bv32> {
    if prefix == [] || suffixLength <= 0 then None
    else Some(Xor(whole, Steps(8 * suffixLength, Crc(prefix))))
  }

  /** The stripped value is the tail's CRC exactly when the whole CRC is that of the whole. */
  lemma StripPrefixExact(whole: bv32, prefix: seq<bv8>, suffix: seq<bv8>)
    requires prefix != [] && suffix != []
    ensures StripPrefix(whole, prefix, |suffix|) == Some(Crc(suffix)) <==> whole == Crc(prefix + suffix)
  {
    CrcConcat(prefix, suffix);
    XorCancels(whole, Steps(8 * |suffix|, Crc(prefix)), Crc(suffix));
  }

  method TryStripPrefix(whole: bv32, prefix: seq<bv8>, suffixLength: int) returns (r: Option<bv32>)
    ensures r == StripPrefix(whole, prefix, suffixLength)
    ensures r.None? <==> prefix == [] || suffixLength <= 0
    ensures forall suffix: seq<bv8> :: prefix != [] && suffix != [] && |suffix| == suffixLength ==>
              (r == Some(Crc(suffix)) <==> whole == Crc(prefix + suffix))
  {
    if prefix == [] || suffixLength <= 0 {
      return None;
    }
    var shifted := ShiftZeros(Crc(prefix), suffixLength);
    r := Some(Xor(whole, shifted));
    forall suffix: seq<bv8> | suffix != [] && |suffix| == suffixLength
      ensures r == Some(Crc(suffix)) <==> whole == Crc(prefix + suffix)
    {
      StripPrefixExact(whole, prefix, suffix);
    }
  }

  // ----- Which CRC this is

  /** The exponents of the generator polynomial x^32 + x^26 + ... + x + 1, without the first. */
  const EXPONENTS: set<int> := {26, 23, 22, 16, 12, 11, 10, 8, 7, 5, 4, 2, 1, 0}

  predicate HasBit(v: bv32, i: nat)
    requires i < 32
  {
    v & Bit(i) != 0
  }

  /** What one step does to bit `i` beyond shifting the register. */
  predicate FlipsBit(c: bv32, i: nat)
    requires i < 32
  {
    HasBit(Step(c) ^ (c >> 1), i)
  }

  lemma LowBits()
    ensures Bit(0) == 0x1 && Bit(1) == 0x2 && Bit(2) == 0x4 && Bit(3) == 0x8
    ensures Bit(4) == 0x10 && Bit(5) == 0x20 && Bit(6) == 0x40 && Bit(7) == 0x80
    ensures Bit(8) == 0x100 && Bit(9) == 0x200 && Bit(10) == 0x400 && Bit(11) == 0x800
    ensures Bit(12) == 0x1000 && Bit(13) == 0x2000 && Bit(14) == 0x4000 && Bit(15) == 0x8000
  {
  }

  lemma HighBits()
    ensures Bit(16) == 0x1_0000 && Bit(17) == 0x2_0000 && Bit(18) == 0x4_0000 && Bit(19) == 0x8_0000
    ensures Bit(20) == 0x10_0000 && Bit(21) == 0x20_0000 && Bit(22) == 0x40_0000 && Bit(23) == 0x80_0000
    ensures Bit(24) == 0x100_0000 && Bit(25) == 0x200_0000 && Bit(26) == 0x400_0000 && Bit(27) == 0x800_0000
    ensures Bit(28) == 0x1000_0000 && Bit(29) == 0x2000_0000 && Bit(30) == 0x4000_0000 && Bit(31) == 0x8000_0000
  {
    LowBits();
  }

  lemma PolynomialBits(i: nat)
    requires i < 32
    ensures HasBit(POLYNOMIAL, i) <==> 31 - i in EXPONENTS
  {
    hide Bit;
    LowBits();
    HighBits();
    if i < 16 {
      assert i in {0, 1, 2, 3, 4, 5, 6, 7, 8, 9, 10, 11, 12, 13, 14, 15};
    } else {
      assert i in {16, 17, 18, 19, 20, 21, 22, 23, 24, 25, 26, 27, 28, 29, 30, 31};
    }
  }

  lemma FlippedIs(c: bv32)
    requires c & 1 == 1
    ensures Step(c) ^ (c >> 1) == POLYNOMIAL
  {
    var r := c >> 1;
    assert (r ^ POLYNOMIAL) ^ r == POLYNOMIAL;
  }

  /**
   The register divides by the generator polynomial of RFC 1952, lowest coefficient on top: a
   clear low bit is shifted out, and a set one takes with it exactly the powers of `EXPONENTS`.
   */
  lemma StepDividesByGenerator(c: bv32)
    ensures c & 1 == 0 ==> Step(c) == c >> 1
    ensures c & 1 == 1 ==> forall i :: 0 <= i < 32 ==> (FlipsBit(c, i) <==> 31 - i in EXPONENTS)
  {
    if c & 1 == 1 {
      FlippedIs(c);
      forall i | 0 <= i < 32 ensures FlipsBit(c, i) <==> 31 - i in EXPONENTS {
        PolynomialBits(i);
      }
    }
  }

  /** Eight steps by hand, for a byte that is given. */
  lemma ByteGoesIn(c: bv32, b: bv8, x: bv32, next: bv32)
    requires x == c ^ (b as bv32)
    requires next == Step(Step(Step(Step(Step(Step(Step(Step(x))))))))
    ensures forall rest: seq<bv8> :: Update(c, [b] + rest) == Update(next, rest)
  {
    forall rest: seq<bv8> ensures Update(c, [b] + rest) == Update(next, rest) {
      assert ([b] + rest)[1..] == rest;
      EightSteps(x);
    }
  }

  lemma EightSteps(x: bv32)
    ensures Steps(8, x) == Step(Step(Step(Step(Step(Step(Step(Step(x))))))))
  {
    var x4 := Step(Step(Step(Step(x))));
    FourSteps(4, x);
    FourSteps(0, x4);
  }

  lemma FourSteps(n: nat, x: bv32)
    ensures Steps(n + 4, x) == Steps(n, Step(Step(Step(Step(x)))))
  {
    hide Step;
    assert Steps(n + 3, Step(x)) == Steps(n + 2, Step(Step(x)));
  }

  lemma CheckByte1(rest: seq<bv8>)
    ensures Update(0xFFFF_FFFF, [0x31] + rest) == Update(0x7C23_1048, rest)
  {
    ByteGoesIn(0xFFFF_FFFF, 0x31, 0xFFFF_FFCE, 0x7C23_1048);
  }

  lemma CheckByte2(rest: seq<bv8>)
    ensures Update(0x7C23_1048, [0x32] + rest) == Update(0xB0AC_BB32, rest)
  {
    ByteGoesIn(0x7C23_1048, 0x32, 0x7C23_107A, 0xB0AC_BB32);
  }

  lemma CheckByte3(rest: seq<bv8>)
    ensures Update(0xB0AC_BB32, [0x33] + rest) == Update(0x77B7_9C2D, rest)
  {
    ByteGoesIn(0xB0AC_BB32, 0x33, 0xB0AC_BB01, 0x77B7_9C2D);
  }

  lemma CheckByte4(rest: seq<bv8>)
    ensures Update(0x77B7_9C2D, [0x34] + rest) == Update(0x641C_1F5C, rest)
  {
    ByteGoesIn(0x77B7_9C2D, 0x34, 0x77B7_9C19, 0x641C_1F5C);
  }

  lemma CheckByte5(rest: seq<bv8>)
    ensures Update(0x641C_1F5C, [0x35] + rest) == Update(0x340A_C5E3, rest)
  {
    ByteGoesIn(0x641C_1F5C, 0x35, 0x641C_1F69, 0x340A_C5E3);
  }

  lemma CheckByte6(rest: seq<bv8>)
    ensures Update(0x340A_C5E3, [0x36] + rest) == Update(0xF68D_2C9E, rest)
  {
    ByteGoesIn(0x340A_C5E3, 0x36, 0x340A_C5D5, 0xF68D_2C9E);
  }

  lemma CheckByte7(rest: seq<bv8>)
    ensures Update(0xF68D_2C9E, [0x37] + rest) == Update(0xAFFC_9660, rest)
  {
    ByteGoesIn(0xF68D_2C9E, 0x37, 0xF68D_2CA9, 0xAFFC_9660);
  }

  lemma CheckByte8(rest: seq<bv8>)
    ensures Update(0xAFFC_9660, [0x38] + rest) == Update(0x651F_2550, rest)
  {
    ByteGoesIn(0xAFFC_9660, 0x38, 0xAFFC_9658, 0x651F_2550);
  }

  lemma CheckByte9(rest: seq<bv8>)
    ensures Update(0x651F_2550, [0x39] + rest) == Update(0x340B_C6D9, rest)
  {
    ByteGoesIn(0x651F_2550, 0x39, 0x651F_2569, 0x340B_C6D9);
  }

  const CHECK_TEXT: seq<bv8> := [0x31, 0x32, 0x33, 0x34, 0x35, 0x36, 0x37, 0x38, 0x39]

  /** The check value by which CRC-32 is told from its relatives: that of the text "123456789". */
  lemma CheckValue()
    ensures Crc(CHECK_TEXT) == 0xCBF4_3926
  {
    hide Update;
    var rest1: seq<bv8> := [0x32, 0x33, 0x34, 0x35, 0x36, 0x37, 0x38, 0x39];
    var rest2: seq<bv8> := [0x33, 0x34, 0x35, 0x36, 0x37, 0x38, 0x39];
    var rest3: seq<bv8> := [0x34, 0x35, 0x36, 0x37, 0x38, 0x39];
    var rest4: seq<bv8> := [0x35, 0x36, 0x37, 0x38, 0x39];
    var rest5: seq<bv8> := [0x36, 0x37, 0x38, 0x39];
    var rest6: seq<bv8> := [0x37, 0x38, 0x39];
    var rest7: seq<bv8> := [0x38, 0x39];
    var rest8: seq<bv8> := [0x39];
    assert CHECK_TEXT == [0x31] + rest1;
    assert rest1 == [0x32] + rest2;
    assert rest2 == [0x33] + rest3;
    assert rest3 == [0x34] + rest4;
    assert rest4 == [0x35] + rest5;
    assert rest5 == [0x36] + rest6;
    assert rest6 == [0x37] + rest7;
    assert rest7 == [0x38] + rest8;
    assert rest8 == [0x39] + [];
    CheckByte1(rest1);
    CheckByte2(rest2);
    CheckByte3(rest3);
    CheckByte4(rest4);
    CheckByte5(rest5);
    CheckByte6(rest6);
    CheckByte7(rest7);
    CheckByte8(rest8);
    CheckByte9([]);
    NothingGoesIn(0x340B_C6D9);
  }

  lemma NothingGoesIn(c: bv32)
    ensures Update(c, []) == c
  {
  }
}
