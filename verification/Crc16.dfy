/** The checksum of stages/hca.py: polynomial division by x^16 + x^15 + x^2 + 1 over the two-element
    field, and the table-driven form that computes it. */
module Crc16 {
  import opened Bytes

  type crc = bv16

  // ----- Division, bit by bit

  /** A dividend, from its highest power down. */
  type Polynomial = seq<bool>

  // Operations on the register. The proofs hide these bodies where only their laws matter.
  function TopBit(r: crc): bool { r & 0x8000 != 0 }
  function Shifted(r: crc): crc { r << 1 }
  function Xor(a: crc, b: crc): crc { a ^ b }
  function LowBit(bit: bool): crc { if bit then 1 else 0 }

  /** Takes the next bit of the dividend into the remainder. 0x8005 is x^15 + x^2 + 1, the divisor
      without its leading term. */
  function Divide(r: crc, bit: bool): crc {
    var shifted := Shifted(r) | LowBit(bit);
    if TopBit(r) then shifted ^ 0x8005 else shifted
  }

  /** The remainder of long division by the polynomial. */
  function Remainder(m: Polynomial): crc {
    if m == [] then 0 else Divide(Remainder(m[..|m| - 1]), m[|m| - 1])
  }

  /** The quotient of long division by the polynomial. */
  ghost function Quotient(m: Polynomial): Polynomial {
    if m == [] then [] else Quotient(m[..|m| - 1]) + [TopBit(Remainder(m[..|m| - 1]))]
  }

  /** The coefficient of x^k. */
  function Coefficient(m: Polynomial, k: int): bool {
    0 <= k < |m| && m[|m| - 1 - k]
  }

  /** The coefficient of x^k in a remainder. */
  function RemainderBit(r: crc, k: int): bool {
    match k
    case 0 => r & 0x0001 != 0
    case 1 => r & 0x0002 != 0
    case 2 => r & 0x0004 != 0
    case 3 => r & 0x0008 != 0
    case 4 => r & 0x0010 != 0
    case 5 => r & 0x0020 != 0
    case 6 => r & 0x0040 != 0
    case 7 => r & 0x0080 != 0
    case 8 => r & 0x0100 != 0
    case 9 => r & 0x0200 != 0
    case 10 => r & 0x0400 != 0
    case 11 => r & 0x0800 != 0
    case 12 => r & 0x1000 != 0
    case 13 => r & 0x2000 != 0
    case 14 => r & 0x4000 != 0
    case 15 => r & 0x8000 != 0
    case _ => false
  }

  /** The coefficient of x^k in q(x) * (x^16 + x^15 + x^2 + 1). */
  function ProductCoefficient(q: Polynomial, k: int): bool {
    ((Coefficient(q, k - 16) != Coefficient(q, k - 15)) != Coefficient(q, k - 2)) != Coefficient(q, k)
  }

  /** m(x) = q(x) * (x^16 + x^15 + x^2 + 1) + r(x), coefficient by coefficient. */
  ghost predicate DividesInto(m: Polynomial, q: Polynomial, r: crc) {
    forall k: int :: Coefficient(m, k) == (ProductCoefficient(q, k) != RemainderBit(r, k))
  }

  lemma BitsOfXor(a: crc, b: crc, k: int)
    ensures RemainderBit(Xor(a, b), k) == (RemainderBit(a, k) != RemainderBit(b, k))
  {
    match k
    case 0 => assert ((a ^ b) & 0x0001 != 0) == ((a & 0x0001 != 0) != (b & 0x0001 != 0));
    case 1 => assert ((a ^ b) & 0x0002 != 0) == ((a & 0x0002 != 0) != (b & 0x0002 != 0));
    case 2 => assert ((a ^ b) & 0x0004 != 0) == ((a & 0x0004 != 0) != (b & 0x0004 != 0));
    case 3 => assert ((a ^ b) & 0x0008 != 0) == ((a & 0x0008 != 0) != (b & 0x0008 != 0));
    case 4 => assert ((a ^ b) & 0x0010 != 0) == ((a & 0x0010 != 0) != (b & 0x0010 != 0));
    case 5 => assert ((a ^ b) & 0x0020 != 0) == ((a & 0x0020 != 0) != (b & 0x0020 != 0));
    case 6 => assert ((a ^ b) & 0x0040 != 0) == ((a & 0x0040 != 0) != (b & 0x0040 != 0));
    case 7 => assert ((a ^ b) & 0x0080 != 0) == ((a & 0x0080 != 0) != (b & 0x0080 != 0));
    case 8 => assert ((a ^ b) & 0x0100 != 0) == ((a & 0x0100 != 0) != (b & 0x0100 != 0));
    case 9 => assert ((a ^ b) & 0x0200 != 0) == ((a & 0x0200 != 0) != (b & 0x0200 != 0));
    case 10 => assert ((a ^ b) & 0x0400 != 0) == ((a & 0x0400 != 0) != (b & 0x0400 != 0));
    case 11 => assert ((a ^ b) & 0x0800 != 0) == ((a & 0x0800 != 0) != (b & 0x0800 != 0));
    case 12 => assert ((a ^ b) & 0x1000 != 0) == ((a & 0x1000 != 0) != (b & 0x1000 != 0));
    case 13 => assert ((a ^ b) & 0x2000 != 0) == ((a & 0x2000 != 0) != (b & 0x2000 != 0));
    case 14 => assert ((a ^ b) & 0x4000 != 0) == ((a & 0x4000 != 0) != (b & 0x4000 != 0));
    case 15 => assert ((a ^ b) & 0x8000 != 0) == ((a & 0x8000 != 0) != (b & 0x8000 != 0));
    case _ =>
  }

  lemma BitsOfShifted(r: crc, k: int)
    ensures RemainderBit(Shifted(r), k) == (k < 16 && RemainderBit(r, k - 1))
    ensures TopBit(r) == RemainderBit(r, 15)
  {
    match k
    case 0 => assert (r << 1) & 0x0001 == 0;
    case 1 => assert ((r << 1) & 0x0002 != 0) == (r & 0x0001 != 0);
    case 2 => assert ((r << 1) & 0x0004 != 0) == (r & 0x0002 != 0);
    case 3 => assert ((r << 1) & 0x0008 != 0) == (r & 0x0004 != 0);
    case 4 => assert ((r << 1) & 0x0010 != 0) == (r & 0x0008 != 0);
    case 5 => assert ((r << 1) & 0x0020 != 0) == (r & 0x0010 != 0);
    case 6 => assert ((r << 1) & 0x0040 != 0) == (r & 0x0020 != 0);
    case 7 => assert ((r << 1) & 0x0080 != 0) == (r & 0x0040 != 0);
    case 8 => assert ((r << 1) & 0x0100 != 0) == (r & 0x0080 != 0);
    case 9 => assert ((r << 1) & 0x0200 != 0) == (r & 0x0100 != 0);
    case 10 => assert ((r << 1) & 0x0400 != 0) == (r & 0x0200 != 0);
    case 11 => assert ((r << 1) & 0x0800 != 0) == (r & 0x0400 != 0);
    case 12 => assert ((r << 1) & 0x1000 != 0) == (r & 0x0800 != 0);
    case 13 => assert ((r << 1) & 0x2000 != 0) == (r & 0x1000 != 0);
    case 14 => assert ((r << 1) & 0x4000 != 0) == (r & 0x2000 != 0);
    case 15 => assert ((r << 1) & 0x8000 != 0) == (r & 0x4000 != 0);
    case _ =>
  }

  lemma BitsOfConstants(bit: bool, k: int)
    ensures RemainderBit(LowBit(bit), k) == (bit && k == 0)
    ensures RemainderBit(0x8005, k) == (k == 0 || k == 2 || k == 15)
    ensures !RemainderBit(0, k)
  {}

  lemma HighestBit(r: crc, k: int)
    ensures RemainderBit(r, k) ==> 0 <= k < 16
  {}

  lemma DivideBits(r: crc, bit: bool, k: int)
    ensures RemainderBit(Divide(r, bit), k)
         == ((if k == 0 then bit else RemainderBit(r, k - 1))
             != (TopBit(r) && (k == 0 || k == 2 || k == 15 || k == 16)))
  {
    hide RemainderBit, Shifted, Xor, LowBit, TopBit, Divide;
    DivideIsStep(r, bit);
    BitsOfXor(Step(r), LowBit(bit), k);
    BitsOfXor(Shifted(r), 0x8005, k);
    BitsOfShifted(r, k);
    BitsOfConstants(bit, k);
    HighestBit(r, k - 1);
  }

  lemma AppendCoefficient(m: Polynomial, bit: bool, k: int)
    ensures Coefficient(m + [bit], k) == if k == 0 then bit else Coefficient(m, k - 1)
  {}

  /** Long division divides. */
  lemma {:induction false} DivisionHolds(m: Polynomial)
    ensures DividesInto(m, Quotient(m), Remainder(m))
  {
    hide Divide, TopBit, RemainderBit, Coefficient;
    if m == [] {
      forall k: int ensures !Coefficient([], k) && !RemainderBit(0, k) {
        NothingThere(k);
      }
      forall k: int ensures !ProductCoefficient([], k) {}
    } else {
      var front, bit := m[..|m| - 1], m[|m| - 1];
      var q, r := Quotient(front), Remainder(front);
      DivisionHolds(front);
      assert m == front + [bit];
      forall k: int ensures Coefficient(m, k) == (ProductCoefficient(Quotient(m), k) != RemainderBit(Remainder(m), k)) {
        DivideBits(r, bit, k);
        AppendCoefficient(front, bit, k);
        AppendCoefficient(q, TopBit(r), k);
        AppendCoefficient(q, TopBit(r), k - 2);
        AppendCoefficient(q, TopBit(r), k - 15);
        AppendCoefficient(q, TopBit(r), k - 16);
        assert Coefficient(front, k - 1) == (ProductCoefficient(q, k - 1) != RemainderBit(r, k - 1));
        NegativePowers(front, q, r, k - 1);
        NegativePowers(front, q, r, k - 3);
        NegativePowers(front, q, r, k - 16);
        NegativePowers(front, q, r, k - 17);
      }
    }
  }

  lemma NothingThere(k: int)
    ensures !Coefficient([], k) && !RemainderBit(0, k)
  {}

  lemma NegativePowers(m: Polynomial, q: Polynomial, r: crc, k: int)
    ensures k < 0 ==> !Coefficient(m, k) && !Coefficient(q, k) && !RemainderBit(r, k)
  {}

  // ----- The remainder is unique

  lemma {:induction false} QuotientsAgreeAbove(m: Polynomial, q: Polynomial, r: crc, q': Polynomial, r': crc, j: nat)
    requires DividesInto(m, q, r) && DividesInto(m, q', r')
    ensures Coefficient(q, j) == Coefficient(q', j)
    decreases |q| + |q'| - j
  {
    if j < |q| + |q'| {
      hide RemainderBit, Coefficient;
      QuotientsAgreeAbove(m, q, r, q', r', j + 1);
      QuotientsAgreeAbove(m, q, r, q', r', j + 14);
      QuotientsAgreeAbove(m, q, r, q', r', j + 16);
      assert Coefficient(m, j + 16) == (ProductCoefficient(q, j + 16) != RemainderBit(r, j + 16));
      assert Coefficient(m, j + 16) == (ProductCoefficient(q', j + 16) != RemainderBit(r', j + 16));
      NoHighRemainder(r, j + 16);
      NoHighRemainder(r', j + 16);
    }
  }

  lemma NoHighRemainder(r: crc, k: int)
    requires k >= 16
    ensures !RemainderBit(r, k)
  {}

  lemma SomeBitIsSet(x: crc)
    ensures x == 0
      || x & 0x0001 != 0 || x & 0x0002 != 0 || x & 0x0004 != 0 || x & 0x0008 != 0
      || x & 0x0010 != 0 || x & 0x0020 != 0 || x & 0x0040 != 0 || x & 0x0080 != 0
      || x & 0x0100 != 0 || x & 0x0200 != 0 || x & 0x0400 != 0 || x & 0x0800 != 0
      || x & 0x1000 != 0 || x & 0x2000 != 0 || x & 0x4000 != 0 || x & 0x8000 != 0
  {}

  lemma XorZeroIff(a: crc, b: crc)
    ensures Xor(a, b) == 0 <==> a == b
  {
    hide Xor;
    XorAssociates(a, b, b);
    XorZero(a);
    XorZero(b);
    XorCommutes(0, b);
  }

  lemma SameBitsSameRemainder(r: crc, r': crc)
    requires forall k: int :: RemainderBit(r, k) == RemainderBit(r', k)
    ensures r == r'
  {
    XorZeroIff(r, r');
    hide Xor;
    var x := Xor(r, r');
    forall k: int ensures !RemainderBit(x, k) {
      BitsOfXor(r, r', k);
    }
    NoBitIsZero(x);
  }

  lemma NoBitIsZero(x: crc)
    requires forall k: int :: !RemainderBit(x, k)
    ensures x == 0
  {
    SomeBitIsSet(x);
    assert !RemainderBit(x, 0) && !RemainderBit(x, 1) && !RemainderBit(x, 2) && !RemainderBit(x, 3);
    assert !RemainderBit(x, 4) && !RemainderBit(x, 5) && !RemainderBit(x, 6) && !RemainderBit(x, 7);
    assert !RemainderBit(x, 8) && !RemainderBit(x, 9) && !RemainderBit(x, 10) && !RemainderBit(x, 11);
    assert !RemainderBit(x, 12) && !RemainderBit(x, 13) && !RemainderBit(x, 14) && !RemainderBit(x, 15);
  }

  /** `Remainder` is the one polynomial of degree below 16 that differs from the dividend by a
      multiple of the divisor. */
  lemma RemainderIsUnique(m: Polynomial, r: crc)
    ensures r == Remainder(m) <==> exists q :: DividesInto(m, q, r)
  {
    hide RemainderBit, Coefficient, Remainder, Quotient;
    DivisionHolds(m);
    if q :| DividesInto(m, q, r) {
      var q', r' := Quotient(m), Remainder(m);
      forall k: int ensures RemainderBit(r, k) == RemainderBit(r', k) {
        forall j: int ensures Coefficient(q, j) == Coefficient(q', j) {
          NegativePowers(q, q', r, j);
          if j >= 0 {
            QuotientsAgreeAbove(m, q, r, q', r', j);
          }
        }
        assert Coefficient(m, k) == (ProductCoefficient(q, k) != RemainderBit(r, k));
        assert Coefficient(m, k) == (ProductCoefficient(q', k) != RemainderBit(r', k));
      }
      SameBitsSameRemainder(r, r');
    }
  }

  // ----- The checksum

  /** One step of the table's inner loop. */
  function Step(c: crc): crc {
    if TopBit(c) then Xor(Shifted(c), 0x8005) else Shifted(c)
  }

  function Steps(c: crc, n: nat): crc {
    if n == 0 then c else Step(Steps(c, n - 1))
  }

  function AtTop(bit: bool): crc {
    if bit then 0x8000 else 0
  }

  /** The register after bits have come in at its top, one by one. */
  function Register(bits: Polynomial): crc {
    if bits == [] then 0 else Step(Xor(Register(bits[..|bits| - 1]), AtTop(bits[|bits| - 1])))
  }

  function ByteBits(b: byte): Polynomial {
    [b & 0x80 != 0, b & 0x40 != 0, b & 0x20 != 0, b & 0x10 != 0,
     b & 0x08 != 0, b & 0x04 != 0, b & 0x02 != 0, b & 0x01 != 0]
  }

  function Bits(data: seq<byte>): Polynomial {
    if data == [] then [] else Bits(data[..|data| - 1]) + ByteBits(data[|data| - 1])
  }

  function Zeros(n: nat): Polynomial {
    seq(n, _ => false)
  }

  /** The CRC of a byte string: the remainder of the string followed by sixteen zero bits. */
  function Crc(data: seq<byte>): crc {
    Remainder(Bits(data) + Zeros(16))
  }

  lemma ShiftOfXor(a: crc, b: crc)
    ensures Shifted(Xor(a, b)) == Xor(Shifted(a), Shifted(b))
  {}

  lemma TopOfXor(a: crc, b: crc)
    ensures TopBit(Xor(a, b)) == (TopBit(a) != TopBit(b))
  {}

  lemma XorCancels(a: crc, b: crc, p: crc)
    ensures Xor(Xor(a, p), Xor(b, p)) == Xor(a, b)
  {
    assert (a ^ p) ^ (b ^ p) == a ^ b;
  }

  lemma XorAssociates(a: crc, b: crc, p: crc)
    ensures Xor(a, Xor(b, p)) == Xor(Xor(a, b), p)
  {
    assert a ^ (b ^ p) == (a ^ b) ^ p;
  }

  lemma XorCommutes(a: crc, b: crc)
    ensures Xor(a, b) == Xor(b, a)
  {}

  lemma XorZero(a: crc)
    ensures Xor(a, 0) == a && Xor(a, a) == 0
  {}

  lemma StepIsLinear(a: crc, b: crc)
    ensures Step(Xor(a, b)) == Xor(Step(a), Step(b))
  {
    hide TopBit, Shifted, Xor;
    var x, y, p := Shifted(a), Shifted(b), 0x8005 as crc;
    ShiftOfXor(a, b);
    TopOfXor(a, b);
    XorCancels(x, y, p);
    XorAssociates(x, y, p);
    XorAssociates(x, p, y);
    XorCommutes(p, y);
  }

  lemma {:induction false} StepsAreLinear(a: crc, b: crc, n: nat)
    ensures Steps(Xor(a, b), n) == Xor(Steps(a, n), Steps(b, n))
  {
    hide Step, Xor;
    if n > 0 {
      StepsAreLinear(a, b, n - 1);
      StepIsLinear(Steps(a, n - 1), Steps(b, n - 1));
    }
  }

  lemma {:induction false} StepsCommute(c: crc, n: nat)
    ensures Steps(Step(c), n) == Step(Steps(c, n))
  {
    hide Step;
    if n > 0 {
      StepsCommute(c, n - 1);
    }
  }

  lemma LowBitIsXor(r: crc, bit: bool)
    ensures Shifted(r) | LowBit(bit) == Xor(Shifted(r), LowBit(bit))
  {
    if bit {
      assert (r << 1) | 1 == (r << 1) ^ 1;
    } else {
      assert (r << 1) | 0 == (r << 1) ^ 0;
    }
  }

  lemma DivideIsStep(r: crc, bit: bool)
    ensures Divide(r, bit) == Xor(Step(r), LowBit(bit))
    ensures Divide(r, false) == Step(r)
  {
    hide Xor, Shifted, TopBit;
    DivideByXor(r, bit);
    DivideByXor(r, false);
    XorZero(Step(r));
    var x, b, p := Shifted(r), LowBit(bit), 0x8005 as crc;
    XorAssociates(x, b, p);
    XorAssociates(x, p, b);
    XorCommutes(p, b);
    XorAssociates(x, 0, p);
    XorAssociates(x, p, 0);
    XorCommutes(p, 0);
  }

  lemma DivideByXor(r: crc, bit: bool)
    ensures Divide(r, bit)
         == if TopBit(r) then Xor(Xor(Shifted(r), LowBit(bit)), 0x8005) else Xor(Shifted(r), LowBit(bit))
  {
    hide Shifted, LowBit, TopBit;
    LowBitIsXor(r, bit);
  }

  lemma {:induction false} ZerosAreSteps(m: Polynomial, n: nat)
    ensures Remainder(m + Zeros(n)) == Steps(Remainder(m), n)
  {
    hide Divide, Step;
    if n == 0 {
      assert m + Zeros(0) == m;
    } else {
      ZerosAreSteps(m, n - 1);
      var all := m + Zeros(n);
      assert all[..|all| - 1] == m + Zeros(n - 1);
      DivideIsStep(Remainder(m + Zeros(n - 1)), false);
    }
  }

  lemma SixteenStepsOfOne()
    ensures Steps(1, 16) == Step(0x8000) && Steps(0, 16) == 0
  {
    assert Steps(1, 4) == 0x10;
    assert Steps(1, 8) == 0x100;
    assert Steps(1, 12) == 0x1000;
    assert Steps(1, 15) == 0x8000;
    assert Steps(0, 4) == 0;
    assert Steps(0, 8) == 0;
    assert Steps(0, 12) == 0;
  }

  lemma StepsOfLowBit(bit: bool)
    ensures Steps(LowBit(bit), 16) == Step(AtTop(bit))
  {
    SixteenStepsOfOne();
  }

  /** Sixteen zeros after the bits are the same as bringing the bits in at the top. */
  lemma {:induction false} RegisterIsRemainder(bits: Polynomial)
    ensures Register(bits) == Steps(Remainder(bits), 16)
  {
    hide Divide, Step, Steps, Xor, LowBit, AtTop;
    if bits == [] {
      SixteenStepsOfOne();
    } else {
      var front, bit := bits[..|bits| - 1], bits[|bits| - 1];
      RegisterIsRemainder(front);
      var r := Remainder(front);
      DivideIsStep(r, bit);
      StepsAreLinear(Step(r), LowBit(bit), 16);
      StepsCommute(r, 16);
      StepIsLinear(Steps(r, 16), AtTop(bit));
      StepsOfLowBit(bit);
    }
  }

  // ----- Whole bytes at a time

  function Halved(c: crc): crc { c >> 1 }

  /** Bits at the top of an empty register. */
  function Load(bits: Polynomial): crc {
    if bits == [] then 0 else Xor(AtTop(bits[0]), Halved(Load(bits[1..])))
  }

  lemma BitsOfHalved(x: crc, k: int)
    requires 0 <= k
    ensures RemainderBit(Halved(x), k) == RemainderBit(x, k + 1)
  {
    match k
    case 0 => assert ((x >> 1) & 0x0001 != 0) == (x & 0x0002 != 0);
    case 1 => assert ((x >> 1) & 0x0002 != 0) == (x & 0x0004 != 0);
    case 2 => assert ((x >> 1) & 0x0004 != 0) == (x & 0x0008 != 0);
    case 3 => assert ((x >> 1) & 0x0008 != 0) == (x & 0x0010 != 0);
    case 4 => assert ((x >> 1) & 0x0010 != 0) == (x & 0x0020 != 0);
    case 5 => assert ((x >> 1) & 0x0020 != 0) == (x & 0x0040 != 0);
    case 6 => assert ((x >> 1) & 0x0040 != 0) == (x & 0x0080 != 0);
    case 7 => assert ((x >> 1) & 0x0080 != 0) == (x & 0x0100 != 0);
    case 8 => assert ((x >> 1) & 0x0100 != 0) == (x & 0x0200 != 0);
    case 9 => assert ((x >> 1) & 0x0200 != 0) == (x & 0x0400 != 0);
    case 10 => assert ((x >> 1) & 0x0400 != 0) == (x & 0x0800 != 0);
    case 11 => assert ((x >> 1) & 0x0800 != 0) == (x & 0x1000 != 0);
    case 12 => assert ((x >> 1) & 0x1000 != 0) == (x & 0x2000 != 0);
    case 13 => assert ((x >> 1) & 0x2000 != 0) == (x & 0x4000 != 0);
    case 14 => assert ((x >> 1) & 0x4000 != 0) == (x & 0x8000 != 0);
    case 15 => assert (x >> 1) & 0x8000 == 0;
    case _ =>
  }

  lemma BitsOfAtTop(bit: bool, k: int)
    ensures RemainderBit(AtTop(bit), k) == (bit && k == 15)
  {}

  lemma {:induction false} BitsOfLoad(bits: Polynomial, k: int)
    requires 0 <= k <= 15 && |bits| <= 16
    ensures RemainderBit(Load(bits), k) == (15 - k < |bits| && bits[15 - k])
  {
    hide RemainderBit, Xor, Halved, AtTop;
    if bits == [] {
      BitsOfConstants(false, k);
    } else {
      BitsOfXor(AtTop(bits[0]), Halved(Load(bits[1..])), k);
      BitsOfAtTop(bits[0], k);
      BitsOfHalved(Load(bits[1..]), k);
      if k < 15 {
        BitsOfLoad(bits[1..], k + 1);
      } else {
        HighestBit(Load(bits[1..]), 16);
      }
    }
  }

  lemma HalvedHasNoTop(x: crc)
    ensures !TopBit(Halved(x))
  {}

  lemma EvenComesBack(x: crc)
    ensures x & 0x0001 != 0 || (x >> 1) << 1 == x
  {}

  lemma StepUndoesHalving(x: crc)
    requires !RemainderBit(x, 0)
    ensures Step(Halved(x)) == x
  {
    hide Xor, TopBit;
    HalvedHasNoTop(x);
    EvenComesBack(x);
  }

  /** Bits brought in one by one do what the same bits do when put in together. */
  lemma {:induction false} RegisterOfMore(bits: Polynomial, more: Polynomial)
    requires |more| <= 15
    ensures Register(bits + more) == Steps(Xor(Register(bits), Load(more)), |more|)
    decreases |more|
  {
    hide Step, Xor, Halved, AtTop, RemainderBit;
    if more == [] {
      assert bits + more == bits;
      XorZero(Register(bits));
    } else {
      var c, x, rest := Register(bits), more[0], more[1..];
      assert bits + more == bits + [x] + rest && (bits + [x])[..|bits|] == bits;
      RegisterOfMore(bits + [x], rest);
      BitsOfLoad(rest, 0);
      StepUndoesHalving(Load(rest));
      StepIsLinear(Xor(c, AtTop(x)), Halved(Load(rest)));
      XorAssociates(c, AtTop(x), Halved(Load(rest)));
      StepsCommute(Xor(c, Load(more)), |rest|);
    }
  }

  function ByteAtTop(b: byte): crc { (b as crc) << 8 }

  /** An entry of the table. */
  function TableEntry(b: byte): crc {
    Steps(ByteAtTop(b), 8)
  }

  function EntryAt(k: nat): crc
    requires k < 256
  {
    TableEntry(ByteOf(k))
  }

  lemma BitsOfByteAtTop(b: byte, k: int)
    requires 0 <= k <= 15
    ensures RemainderBit(ByteAtTop(b), k) == (15 - k < 8 && ByteBits(b)[15 - k])
  {
    hide RemainderBit, ByteAtTop, ByteBits;
    if k < 8 {
      NoLowBits(b, k);
    } else {
      HighBits(b, k);
    }
  }

  lemma NoLowBits(b: byte, k: int)
    requires 0 <= k < 8
    ensures !RemainderBit(ByteAtTop(b), k)
  {
    match k
    case 0 => assert ((b as crc) << 8) & 0x0001 == 0;
    case 1 => assert ((b as crc) << 8) & 0x0002 == 0;
    case 2 => assert ((b as crc) << 8) & 0x0004 == 0;
    case 3 => assert ((b as crc) << 8) & 0x0008 == 0;
    case 4 => assert ((b as crc) << 8) & 0x0010 == 0;
    case 5 => assert ((b as crc) << 8) & 0x0020 == 0;
    case 6 => assert ((b as crc) << 8) & 0x0040 == 0;
    case 7 => assert ((b as crc) << 8) & 0x0080 == 0;
  }

  lemma HighBits(b: byte, k: int)
    requires 8 <= k <= 15
    ensures RemainderBit(ByteAtTop(b), k) == ByteBits(b)[15 - k]
  {
    match k
    case 8 => assert (((b as crc) << 8) & 0x0100 != 0) == (b & 0x01 != 0);
    case 9 => assert (((b as crc) << 8) & 0x0200 != 0) == (b & 0x02 != 0);
    case 10 => assert (((b as crc) << 8) & 0x0400 != 0) == (b & 0x04 != 0);
    case 11 => assert (((b as crc) << 8) & 0x0800 != 0) == (b & 0x08 != 0);
    case 12 => assert (((b as crc) << 8) & 0x1000 != 0) == (b & 0x10 != 0);
    case 13 => assert (((b as crc) << 8) & 0x2000 != 0) == (b & 0x20 != 0);
    case 14 => assert (((b as crc) << 8) & 0x4000 != 0) == (b & 0x40 != 0);
    case 15 => assert (((b as crc) << 8) & 0x8000 != 0) == (b & 0x80 != 0);
  }

  lemma LoadOfByte(b: byte)
    ensures Load(ByteBits(b)) == ByteAtTop(b)
  {
    hide RemainderBit, Load, ByteAtTop;
    var bits := ByteBits(b);
    forall k: int ensures RemainderBit(Load(bits), k) == RemainderBit(ByteAtTop(b), k) {
      HighestBit(Load(bits), k);
      HighestBit(ByteAtTop(b), k);
      if 0 <= k < 16 {
        BitsOfLoad(bits, k);
        BitsOfByteAtTop(b, k);
      }
    }
    SameBitsSameRemainder(Load(bits), ByteAtTop(b));
  }

  // The two bytes of the register.
  function HighByte(c: crc): byte { (c >> 8) as byte }
  function LowByteOf(c: crc): byte { (c & 0xFF) as byte }
  function ShiftedByte(c: crc): crc { c << 8 }
  function XorByte(a: byte, b: byte): byte { a ^ b }

  /** `(crc << 8) ^ CRC16_TABLE[(crc >> 8) ^ byte]`. */
  function Update(c: crc, b: byte): crc {
    Xor(ShiftedByte(c), TableEntry(XorByte(HighByte(c), b)))
  }

  lemma RegisterSplits(c: crc, b: byte)
    ensures Xor(c, ByteAtTop(b)) == Xor(ByteAtTop(XorByte(HighByte(c), b)), LowByteOf(c) as crc)
  {}

  lemma LowByteMovesUp(c: crc)
    ensures Steps(LowByteOf(c) as crc, 8) == ShiftedByte(c)
  {
    hide Step, LowByteOf, ShiftedByte;
    var x := LowByteOf(c) as crc;
    LowByteSteps(c);
    NextLowByteSteps(c);
    assert Steps(x, 0) == x;
    assert Steps(x, 1) == x << 1;
    assert Steps(x, 2) == x << 2;
    assert Steps(x, 4) == x << 4;
    assert Steps(x, 6) == x << 6;
  }

  lemma LowByteSteps(c: crc)
    ensures var x := LowByteOf(c) as crc;
      Step(x) == x << 1 && Step(x << 1) == x << 2 && Step(x << 2) == x << 3 && Step(x << 3) == x << 4
  {}

  lemma NextLowByteSteps(c: crc)
    ensures var x := LowByteOf(c) as crc;
      Step(x << 4) == x << 5 && Step(x << 5) == x << 6 && Step(x << 6) == x << 7 && Step(x << 7) == ShiftedByte(c)
  {}

  /** One table lookup advances the register by a whole byte. */
  lemma UpdateIsEightSteps(c: crc, b: byte)
    ensures Update(c, b) == Steps(Xor(c, ByteAtTop(b)), 8)
  {
    hide Step, Steps, Xor, HighByte, LowByteOf, ShiftedByte, XorByte, ByteAtTop;
    var top, low := ByteAtTop(XorByte(HighByte(c), b)), LowByteOf(c) as crc;
    RegisterSplits(c, b);
    StepsAreLinear(top, low, 8);
    LowByteMovesUp(c);
    XorCommutes(Steps(top, 8), Steps(low, 8));
  }

  lemma CrcIsRegister(data: seq<byte>)
    ensures Crc(data) == Register(Bits(data))
  {
    hide Divide, Step, Steps;
    ZerosAreSteps(Bits(data), 16);
    RegisterIsRemainder(Bits(data));
  }

  /** The table-driven step computes the CRC of the longer string. */
  lemma CrcOfOneMore(data: seq<byte>, b: byte)
    ensures Crc(data + [b]) == Update(Crc(data), b) && Crc([]) == 0
  {
    hide Register, Steps, Update, Remainder, ByteBits;
    CrcIsRegister(data);
    CrcIsRegister(data + [b]);
    assert (data + [b])[..|data|] == data;
    ByteHasEightBits(b);
    RegisterOfMore(Bits(data), ByteBits(b));
    LoadOfByte(b);
    UpdateIsEightSteps(Register(Bits(data)), b);
    CrcIsRegister([]);
    EmptyRegister();
  }

  lemma EmptyRegister()
    ensures Register([]) == 0
  {}

  lemma ByteHasEightBits(b: byte)
    ensures |ByteBits(b)| == 8
  {}

  lemma ResidueSteps(c: crc)
    ensures Update(Update(c, HighByte(c)), LowByteOf(c)) == 0
  {
    hide Step, Steps, Xor;
    UpdateWithOwnTop(c);
    assert HighByte(ShiftedByte(c)) == LowByteOf(c);
    UpdateWithOwnTop(ShiftedByte(c));
    assert ShiftedByte(ShiftedByte(c)) == 0;
  }

  /** Feeding a register its own top byte only moves the other byte up. */
  lemma UpdateWithOwnTop(c: crc)
    ensures Update(c, HighByte(c)) == ShiftedByte(c)
  {
    hide Step, Steps;
    SameByteCancels(HighByte(c));
    SixteenStepsOfOne();
    ZeroStays(8);
    XorZero(ShiftedByte(c));
  }

  lemma SameByteCancels(b: byte)
    ensures XorByte(b, b) == 0 && ByteAtTop(0) == 0
  {}

  lemma {:induction false} ZeroStays(n: nat)
    ensures Steps(0, n) == 0
  {
    if n > 0 {
      ZeroStays(n - 1);
    }
  }

  /** A byte string followed by its own checksum, high byte first, has checksum zero. */
  lemma ResidueIsZero(data: seq<byte>)
    ensures Crc(data + [HighByte(Crc(data)), LowByteOf(Crc(data))]) == 0
  {
    hide Crc, Update, HighByte, LowByteOf;
    var c := Crc(data);
    var one := data + [HighByte(c)];
    assert data + [HighByte(c), LowByteOf(c)] == one + [LowByteOf(c)];
    CrcOfOneMore(data, HighByte(c));
    CrcOfOneMore(one, LowByteOf(c));
    ResidueSteps(c);
  }

  // ----- The check value of tests/test_hca.py

  lemma Entry1()
    ensures TableEntry(0x31) == 0x80A5
  {
    assert Steps(0x3100, 4) == 0x100A;
  }

  lemma Entry2()
    ensures TableEntry(0xB2) == 0x03AC
  {
    assert Steps(0xB200, 4) == 0xA039;
  }

  lemma Entry3()
    ensures TableEntry(0x95) == 0x037E
  {
    assert Steps(0x9500, 4) == 0x5036;
  }

  lemma Entry4()
    ensures TableEntry(0x9B) == 0x8359
  {
    assert Steps(0x9B00, 4) == 0xB036;
  }

  lemma Entry5()
    ensures TableEntry(0xC8) == 0x82B3
  {
    assert Steps(0xC800, 4) == 0x8028;
  }

  lemma Entry6()
    ensures TableEntry(0xED) == 0x026E
  {
    assert Steps(0xED00, 4) == 0x5027;
  }

  lemma Entry7()
    ensures TableEntry(0x86) == 0x8317
  {
    assert Steps(0x8600, 4) == 0xE033;
  }

  lemma Entry8()
    ensures TableEntry(0xD5) == 0x82FD
  {
    assert Steps(0xD500, 4) == 0xD02D;
  }

  lemma Entry9()
    ensures TableEntry(0xAC) == 0x03E8
  {
    assert Steps(0xAC00, 4) == 0xC03C;
  }

  /** The checksum of the characters 1 to 9. */
  lemma CheckValue()
    ensures Crc([0x31, 0x32, 0x33, 0x34, 0x35, 0x36, 0x37, 0x38, 0x39]) == 0xFEE8
  {
    hide Crc, TableEntry;
    var s: seq<byte> := [0x31, 0x32, 0x33, 0x34, 0x35, 0x36, 0x37, 0x38, 0x39];
    assert s[..0] == [];
    CrcOfOneMore([], 0);
    Entry1();
    OneMoreCharacter(s, 0, 0x0000, 0x80A5);
    Entry2();
    OneMoreCharacter(s, 1, 0x80A5, 0xA6AC);
    Entry3();
    OneMoreCharacter(s, 2, 0xA6AC, 0xAF7E);
    Entry4();
    OneMoreCharacter(s, 3, 0xAF7E, 0xFD59);
    Entry5();
    OneMoreCharacter(s, 4, 0xFD59, 0xDBB3);
    Entry6();
    OneMoreCharacter(s, 5, 0xDBB3, 0xB16E);
    Entry7();
    OneMoreCharacter(s, 6, 0xB16E, 0xED17);
    Entry8();
    OneMoreCharacter(s, 7, 0xED17, 0x95FD);
    Entry9();
    OneMoreCharacter(s, 8, 0x95FD, 0xFEE8);
    assert s[..9] == s;
  }

  lemma OneMoreCharacter(s: seq<byte>, i: nat, c: crc, next: crc)
    requires i < |s| && Crc(s[..i]) == c && Update(c, s[i]) == next
    ensures Crc(s[..i + 1]) == next
  {
    hide Crc, Update;
    CrcOfOneMore(s[..i], s[i]);
    assert s[..i + 1] == s[..i] + [s[i]];
  }

  // ----- The methods

  /** `crc16_table`. */
  method Crc16Table() returns (table: seq<crc>)
    ensures IsTable(table)
    ensures |table| == 256 && forall k :: 0 <= k < 256 ==> table[k] == Crc([ByteOf(k)])
  {
    hide EntryAt, Crc, IsTable;
    table := [];
    for i := 0 to 256
      invariant |table| == i && forall k :: 0 <= k < i ==> table[k] == EntryAt(k)
    {
      var entry := EightSteps(i);
      table := table + [entry];
    }
    EntriesAreChecksums(table);
  }

  lemma EntriesAreChecksums(table: seq<crc>)
    requires |table| == 256 && forall k :: 0 <= k < 256 ==> table[k] == EntryAt(k)
    ensures IsTable(table) && forall k :: 0 <= k < 256 ==> table[k] == Crc([ByteOf(k)])
  {
    hide TableEntry, ByteOf, Crc;
    forall k | 0 <= k < 256 ensures table[k] == Crc([ByteOf(k)]) {
      ChecksumOfByte(ByteOf(k));
    }
  }

  /** The inner loop over the bits of one entry. */
  method EightSteps(i: nat) returns (entry: crc)
    requires i < 256
    ensures entry == EntryAt(i)
  {
    hide Step, ByteAtTop, ByteOf;
    var b := ByteOf(i);
    entry := ByteAtTop(b);
    for n := 0 to 8
      invariant entry == Steps(ByteAtTop(b), n)
    {
      entry := Step(entry);
    }
  }

  lemma ChecksumOfByte(b: byte)
    ensures Crc([b]) == TableEntry(b)
  {
    hide Crc, TableEntry;
    CrcOfOneMore([], b);
    assert [] + [b] == [b];
    UpdateOfZero(b);
  }

  lemma UpdateOfZero(b: byte)
    ensures Update(0, b) == TableEntry(b)
  {}

  /** `CRC16_TABLE`. */
  ghost predicate IsTable(table: seq<crc>) {
    |table| == 256 && forall k :: 0 <= k < 256 ==> table[k] == EntryAt(k)
  }

  lemma TableAt(table: seq<crc>, b: byte)
    requires IsTable(table)
    ensures 0 <= b as int < 256 && table[b as int] == TableEntry(b)
  {
    hide TableEntry;
    ByteComesBack(b);
  }

  /** `crc16`: the table-driven loop computes the remainder of polynomial division. */
  method Checksum(table: seq<crc>, data: seq<byte>) returns (c: crc)
    requires IsTable(table)
    ensures c == Crc(data)
  {
    hide Crc, IsTable, TableEntry, Xor, ShiftedByte, XorByte, HighByte;
    c := 0;
    CrcOfOneMore([], 0);
    assert data[..0] == [];
    for k := 0 to |data|
      invariant c == Crc(data[..k])
    {
      var index := XorByte(HighByte(c), data[k]);
      TableAt(table, index);
      TableLength(table);
      CrcOfOneMore(data[..k], data[k]);
      assert data[..k + 1] == data[..k] + [data[k]];
      c := Xor(ShiftedByte(c), table[index as int]);
    }
    assert data[..|data|] == data;
  }

  lemma TableLength(table: seq<crc>)
    requires IsTable(table)
    ensures |table| == 256
  {}
}
