/** The byte table of stages/hca.py's cipher: a permutation of the bytes for every key. */
module CipherTable {
  import opened Bytes
  import opened BlockMask
  import opened Lists

  // ----- The nibble generator

  /** `(key & 1) << 3 | 5`. */
  function Multiplier(key: Entry): nat {
    if key % 2 == 1 then 13 else 5
  }

  /** `key & 0xE | 1`. */
  function Increment(key: Entry): nat {
    key % 16 / 2 * 2 + 1
  }

  /** The parameters in the bits of the key byte. */
  lemma ParametersInBits(b: byte)
    ensures Multiplier(b as int) == (((b & 1) << 3) | 5) as int
    ensures Increment(b as int) == ((b & 0xE) | 1) as int
  {
    hide Increment;
    MultiplierInBits(b);
    IncrementInBits(b);
  }

  lemma MultiplierInBits(b: byte)
    ensures Multiplier(b as int) == (((b & 1) << 3) | 5) as int
  {}

  lemma IncrementInBits(b: byte)
    ensures Increment(b as int) == ((b & 0xE) | 1) as int
  {
    LowNibble(b);
    SameBits(b);
    NibbleIncrement(b & 0xF);
  }

  lemma SameBits(b: byte)
    ensures b & 0xF < 16 && (b & 0xF) & 0xE == b & 0xE
  {}

  lemma {:induction false} LowNibble(b: byte)
    ensures (b & 0xF) as int == b as int % 16
    decreases b as int
  {
    if b != 0 {
      NextByte(b - 1);
      LowNibble(b - 1);
      NextNibbleOf(b - 1);
    }
  }

  lemma NextNibbleOf(b: byte)
    requires b < 255
    ensures ((b + 1) & 0xF) as int == if (b & 0xF) as int == 15 then 0 else (b & 0xF) as int + 1
  {
    if b & 0xF != 15 {
      NextByte(b & 0xF);
    }
  }

  lemma NibbleIncrement(n: byte)
    requires n < 16
    ensures ((n & 0xE) | 1) as int == n as int / 2 * 2 + 1
  {}

  /** Nibble `n` of the generator a key byte starts, counted from its high nibble. */
  function Nibble(key: Entry, n: nat): (x: nat)
    ensures x < 16
  {
    if n == 0 then key / 16 else NextNibble(Nibble(key, n - 1), Multiplier(key), Increment(key))
  }

  function NextNibble(x: nat, mul: nat, add: nat): nat {
    (x * mul + add) % 16
  }

  /** A step in bits: the product and sum wrap within a byte, and the low nibble is kept. */
  lemma NextInBits(x: byte, mul: byte, add: byte)
    requires x as int < 16 && add as int < 16 && (mul == 5 || mul == 13)
    ensures NextNibble(x as int, mul as int, add as int) == ((x * mul + add) & 0xF) as int
  {
    SmallProduct(x, mul);
    StepValue(x * mul, add);
  }

  lemma StepValue(product: byte, add: byte)
    requires product as int <= 195 && add as int < 16
    ensures ((product + add) & 0xF) as int == (product as int + add as int) % 16
  {
    SumOfBytes(product, add);
    LowNibble(product + add);
  }

  lemma {:induction false} SmallProduct(x: byte, mul: byte)
    requires x as int < 16 && (mul == 5 || mul == 13)
    ensures (x * mul) as int == x as int * mul as int <= 195
    decreases x as int
  {
    if x != 0 {
      NextByte(x - 1);
      SmallProduct(x - 1, mul);
      OneMoreTimes(x, mul);
      SumOfBytes((x - 1) * mul, mul);
    }
  }

  lemma OneMoreTimes(x: byte, mul: byte)
    ensures (x - 1) * mul + mul == x * mul
  {}

  function Table56(key: Entry): (table: seq<nat>)
    ensures |table| == 16 && forall i :: 0 <= i < 16 ==> table[i] < 16
  {
    seq(16, i requires 0 <= i < 16 => Nibble(key, i + 1))
  }

  /** `create_table56`. */
  method CreateTable56(key: Entry) returns (table: seq<nat>)
    ensures table == Table56(key)
  {
    hide Nibble, NextNibble, Multiplier, Increment;
    var mul, add := Multiplier(key), Increment(key);
    var x: nat := key / 16;
    FirstNibble(key);
    table := [];
    for i := 0 to 16
      invariant |table| == i && x == Nibble(key, i)
      invariant forall k :: 0 <= k < i ==> table[k] == Nibble(key, k + 1)
    {
      NibbleAfter(key, i);
      x := NextNibble(x, mul, add);
      table := table + [x];
    }
  }

  lemma FirstNibble(key: Entry)
    ensures Nibble(key, 0) == key / 16
  {}

  lemma NibbleAfter(key: Entry, n: nat)
    ensures Nibble(key, n + 1) == NextNibble(Nibble(key, n), Multiplier(key), Increment(key))
  {}

  lemma Modulo4Drops(a: int, k: int)
    ensures (a + 4 * k) % 4 == a % 4
  {}

  lemma Modulo16Drops(a: int, k: int)
    ensures (a + 16 * k) % 16 == a % 16
  {}

  /** Modulo 4 the generator only adds its odd increment. */
  lemma NextModulo4(x: nat, mul: nat, add: nat)
    requires mul == 5 || mul == 13
    ensures NextNibble(x, mul, add) % 4 == (x + add) % 4
  {
    var q := (x * mul + add) / 16;
    Modulo4Drops(x + add, (if mul == 5 then x else 3 * x) - 4 * q);
  }

  lemma Next(x: nat, mul: nat, add: nat) returns (q: int)
    ensures NextNibble(x, mul, add) == x * mul + add - 16 * q
  {
    q := (x * mul + add) / 16;
  }

  /** Four steps add twelve times the increment: the multiplier's fourth power is 1 modulo 16. */
  lemma FourSteps(x: nat, mul: nat, add: nat)
    requires mul == 5 || mul == 13
    ensures var y := NextNibble(NextNibble(NextNibble(NextNibble(x, mul, add), mul, add), mul, add), mul, add);
      y == (x + 12 * add) % 16
  {
    var x1 := NextNibble(x, mul, add);
    var x2 := NextNibble(x1, mul, add);
    var x3 := NextNibble(x2, mul, add);
    var x4 := NextNibble(x3, mul, add);
    var q1 := Next(x, mul, add);
    var q2 := Next(x1, mul, add);
    var q3 := Next(x2, mul, add);
    var q4 := Next(x3, mul, add);
    hide NextNibble;
    if mul == 5 {
      Modulo16Drops(x + 12 * add, 39 * x + 9 * add - q4 - 5 * q3 - 25 * q2 - 125 * q1);
      assert x4 == x + 12 * add + 16 * (39 * x + 9 * add - q4 - 5 * q3 - 25 * q2 - 125 * q1);
    } else {
      Modulo16Drops(x + 12 * add, 1785 * x + 148 * add - q4 - 13 * q3 - 169 * q2 - 2197 * q1);
      assert x4 == x + 12 * add + 16 * (1785 * x + 148 * add - q4 - 13 * q3 - 169 * q2 - 2197 * q1);
    }
    NextBelow16(x3, mul, add);
  }

  lemma NextBelow16(x: nat, mul: nat, add: nat)
    ensures NextNibble(x, mul, add) < 16 && NextNibble(x, mul, add) % 16 == NextNibble(x, mul, add)
  {}

  lemma FourNibbles(key: Entry, i: nat)
    ensures Nibble(key, i + 4) == Quarter(Nibble(key, i), Increment(key))
  {
    hide NextNibble, Increment;
    var x, mul, add := Nibble(key, i), Multiplier(key), Increment(key);
    assert Nibble(key, i + 2) == NextNibble(NextNibble(x, mul, add), mul, add);
    FourSteps(x, mul, add);
  }

  lemma {:induction false} NibbleModulo4(key: Entry, i: nat, d: nat)
    requires d < 4
    ensures Nibble(key, i + d) % 4 == (Nibble(key, i) + d * Increment(key)) % 4
  {
    hide NextNibble, Increment;
    if d > 0 {
      var add := Increment(key);
      NibbleModulo4(key, i, d - 1);
      NextModulo4(Nibble(key, i + d - 1), Multiplier(key), add);
      SumModulo4(Nibble(key, i + d - 1), Nibble(key, i) + (d - 1) * add, add);
      assert (d - 1) * add + add == d * add;
    }
  }

  lemma SumModulo4(a: int, b: int, c: int)
    requires a % 4 == b % 4
    ensures (a + c) % 4 == (b + c) % 4
  {
    Modulo4Drops(b + c, a / 4 - b / 4);
  }

  lemma IncrementIsOdd(key: Entry)
    ensures Increment(key) % 2 == 1 && Increment(key) < 16
  {}

  /** Whole rounds of four keep the value modulo 4, and fewer than four rounds move it. */
  lemma RoundsOfFour(key: Entry, i: nat, q: nat)
    requires q < 4
    ensures Nibble(key, i + 4 * q) % 4 == Nibble(key, i) % 4
    ensures q > 0 ==> Nibble(key, i + 4 * q) != Nibble(key, i)
  {
    hide Nibble, Increment, Quarter;
    var x, add := Nibble(key, i), Increment(key);
    IncrementIsOdd(key);
    FourNibbles(key, i);
    FourNibbles(key, i + 4);
    FourNibbles(key, i + 8);
    QuarterApart(x, add);
    QuarterModulo4(x, add);
    QuarterModulo4(Nibble(key, i + 4), add);
    QuarterModulo4(Nibble(key, i + 8), add);
  }

  /** Fewer than sixteen steps never lead back. */
  lemma NibblesApart(key: Entry, i: nat, d: nat)
    requires 0 < d < 16
    ensures Nibble(key, i) != Nibble(key, i + d)
  {
    hide Nibble, Increment;
    var q, r := d / 4, d % 4;
    RoundsOfFour(key, i, q);
    if r > 0 {
      IncrementIsOdd(key);
      NibbleModulo4(key, i + 4 * q, r);
      OddStepsMove(Nibble(key, i + 4 * q), Increment(key), r);
    }
  }

  /** What four steps make of a nibble. */
  function Quarter(x: nat, add: nat): (y: nat)
    ensures y < 16
  {
    (x + 12 * add) % 16
  }

  lemma QuarterIs(x: nat, add: nat) returns (q: nat)
    ensures Quarter(x, add) == x + 12 * add - 16 * q
  {
    q := (x + 12 * add) / 16;
  }

  lemma QuarterApart(x: nat, add: nat)
    requires add % 2 == 1
    ensures var y := Quarter(x, add); var z := Quarter(y, add); var w := Quarter(z, add);
      x != y && x != z && x != w
  {
    hide Quarter;
    var q1 := QuarterIs(x, add);
    var y := Quarter(x, add);
    var q2 := QuarterIs(y, add);
    var z := Quarter(y, add);
    var q3 := QuarterIs(z, add);
    OddTimesOdd(add, 4 * q1, 2 * (q1 + q2), 4 * (q1 + q2 + q3));
  }

  lemma OddTimesOdd(a: nat, i: nat, j: nat, k: nat)
    requires a % 2 == 1
    ensures (i % 2 == 0 ==> 3 * a != i) && (j % 2 == 0 ==> 3 * a != j) && (k % 2 == 0 ==> 9 * a != k)
  {}

  lemma QuarterModulo4(x: nat, add: nat)
    ensures Quarter(x, add) % 4 == x % 4
  {
    Modulo4Drops(x, 3 * add - 4 * ((x + 12 * add) / 16));
  }

  lemma OddStepsMove(x: nat, add: nat, r: nat)
    requires add % 2 == 1 && 1 <= r <= 3
    ensures (x + r * add) % 4 != x % 4
  {
    if r == 1 {
    } else if r == 2 {
    } else {
    }
  }

  /** Each table of sixteen nibbles is a permutation of them, for every key byte. */
  lemma Table56IsPermutation(key: Entry)
    ensures Distinct(Table56(key)) && forall y: nat :: y < 16 ==> y in Table56(key)
  {
    var table := Table56(key);
    forall k, l | 0 <= k < l < 16 ensures table[k] != table[l] {
      NibblesApart(key, k + 1, l - k);
    }
    forall y: nat | y < 16 ensures y in table {
      DistinctCovers(table, 16, y);
    }
  }

  // ----- The table of 256 bytes

  /** `((key - 1) & KEY_MASK).to_bytes(7, "little")`. */
  function KeyBytes(key: nat): (t1: seq<Entry>)
    ensures |t1| == 7
  {
    var bytes := ToLittleEndian((key - 1) % KEY_SPACE, 7);
    seq(7, i requires 0 <= i < 7 => bytes[i] as int)
  }

  /** The same bytes from the two halves of a 64-bit key, one of which may borrow from the other, as
      tests/test_hca.py takes them. */
  method ReferenceKeyBytes(key1: nat, key2: nat) returns (t1: seq<Entry>)
    requires key1 < 0x1_0000_0000 && key2 < 0x1_0000_0000
    ensures t1 == KeyBytes(key1 + 0x1_0000_0000 * key2)
  {
    hide KeyBytes, ToLittleEndian, LowByte;
    var k1: nat, k2: nat := (key1 - 1) % 0x1_0000_0000, if key1 == 0 then (key2 - 1) % 0x1_0000_0000 else key2;
    ghost var whole := k1 + 0x1_0000_0000 * k2;
    t1 := [];
    for i := 0 to 7
      invariant |t1| == i && k2 < 0x1_0000_0000 && k1 < 0x1_0000_0000
      invariant AsBytes(t1) + ToLittleEndian(k1 + 0x1_0000_0000 * k2, 7 - i) == ToLittleEndian(whole, 7)
    {
      ByteShiftedOut(k1, k2, 7 - i);
      ghost var low, before := k1 % 256, t1;
      t1 := t1 + [k1 % 256];
      assert AsBytes(t1) == AsBytes(before) + [ByteOf(low)];
      k1, k2 := k1 / 256 + k2 % 256 * 0x100_0000, k2 / 256;
    }
    BorrowedIsLess(key1, key2);
    NoBytesLeft(k1 + 0x1_0000_0000 * k2);
    KeyBytesOfLess(key1 + 0x1_0000_0000 * key2, whole, t1);
  }

  function AsBytes(entries: seq<Entry>): (bytes: seq<byte>)
    ensures |bytes| == |entries|
  {
    seq(|entries|, i requires 0 <= i < |entries| => ByteOf(entries[i]))
  }

  lemma NoBytesLeft(k: nat)
    ensures ToLittleEndian(k, 0) == []
  {}

  /** A shift by one byte over both halves. */
  lemma ByteShiftedOut(k1: nat, k2: nat, n: nat)
    requires n > 0
    ensures var k := k1 + 0x1_0000_0000 * k2;
      ToLittleEndian(k, n)
      == [ByteOf(k1 % 256)] + ToLittleEndian(k1 / 256 + k2 % 256 * 0x100_0000 + 0x1_0000_0000 * (k2 / 256), n - 1)
  {
    hide ByteOf;
    var k := k1 + 0x1_0000_0000 * k2;
    DivisionUnique(k, 256, k1 / 256 + 0x100_0000 * k2, k1 % 256);
    assert k2 == k2 % 256 + 256 * (k2 / 256);
  }

  lemma BorrowedIsLess(key1: nat, key2: nat)
    requires key1 < 0x1_0000_0000 && key2 < 0x1_0000_0000
    ensures var less := (key1 - 1) % 0x1_0000_0000
                        + 0x1_0000_0000 * (if key1 == 0 then (key2 - 1) % 0x1_0000_0000 else key2);
      less % KEY_SPACE == (key1 + 0x1_0000_0000 * key2 - 1) % KEY_SPACE
  {
    if key1 == 0 && key2 == 0 {
      assert 0xFFFF_FFFF + 0x1_0000_0000 * 0xFFFF_FFFF == -1 + KEY_SPACE * 256;
    }
  }

  lemma KeyBytesOfLess(key: nat, less: nat, t1: seq<Entry>)
    requires less % KEY_SPACE == (key - 1) % KEY_SPACE && |t1| == 7 && AsBytes(t1) == ToLittleEndian(less, 7)
    ensures t1 == KeyBytes(key)
  {
    hide ToLittleEndian, ByteOf;
    LowBytesOnly(less);
    var bytes := ToLittleEndian((key - 1) % KEY_SPACE, 7);
    forall i | 0 <= i < 7 ensures t1[i] == KeyBytes(key)[i] {
      assert AsBytes(t1)[i] == bytes[i];
      assert ByteOf(t1[i]) == bytes[i];
    }
  }

  lemma LowBytesOnly(value: nat)
    ensures ToLittleEndian(value, 7) == ToLittleEndian(value % KEY_SPACE, 7)
  {
    hide ToLittleEndian, FromLittleEndian;
    Pow256Of7();
    LittleEndianRoundTrip(value, 7);
    LittleEndianUnique(ToLittleEndian(value, 7));
  }

  /** The sixteen key bytes of the rows. */
  function RowKeys(t1: seq<Entry>): (t2: seq<Entry>)
    requires |t1| == 7
    ensures |t2| == 16
  {
    [ t1[1], Xor(t1[1], t1[6]), Xor(t1[2], t1[3]), t1[2], Xor(t1[2], t1[1]), Xor(t1[3], t1[4]), t1[3], Xor(t1[3],
        t1[2]),
      Xor(t1[4], t1[5]), t1[4], Xor(t1[4], t1[3]), Xor(t1[5], t1[6]), t1[5], Xor(t1[5], t1[4]), Xor(t1[6], t1[1]),
          t1[6] ]
  }

  /** The row keys go round a ring of the bytes 1 to 6: each byte stands alone, after its XOR with
      its successor and before its XOR with its predecessor. Only the two ends of the list break
      off. */
  lemma RowKeysGoRound(t1: seq<Entry>, k: nat)
    requires |t1| == 7 && 1 <= k <= 6
    ensures var t2, before, next := RowKeys(t1), if k == 1 then 6 else k - 1, if k == 6 then 1 else k + 1;
      && t2[3 * k - 3] == t1[k]
      && (k < 6 ==> t2[3 * k - 2] == Xor(t1[k], t1[before]))
      && (k > 1 ==> t2[3 * k - 4] == Xor(t1[k], t1[next]))
  {
    hide Xor;
  }

  /** Byte `k` before the walk: high nibbles from one table, low nibbles from a table per row. */
  function Joined(high: seq<nat>, rowKeys: seq<Entry>, k: nat): (b: nat)
    requires |high| == 16 && |rowKeys| == 16 && k < 256 && forall i :: 0 <= i < 16 ==> high[i] < 16
    ensures b < 256
  {
    high[k / 16] * 16 + Table56(rowKeys[k / 16])[k % 16]
  }

  /** The nibble from the first table goes above the one from the row's. */
  lemma JoinedInBits(high: seq<nat>, rowKeys: seq<Entry>, k: nat)
    requires |high| == 16 && |rowKeys| == 16 && k < 256 && forall i :: 0 <= i < 16 ==> high[i] < 16
    ensures ByteOf(Joined(high, rowKeys, k)) == (ByteOf(high[k / 16]) << 4) | ByteOf(Table56(rowKeys[k / 16])[k % 16])
  {
    hide ByteOf, Table56;
    NibblesInByte(ByteOf(high[k / 16]), ByteOf(Table56(rowKeys[k / 16])[k % 16]), ByteOf(Joined(high, rowKeys, k)));
  }

  lemma NibblesInByte(h: byte, l: byte, b: byte)
    requires h as int < 16 && l as int < 16 && b as int == 16 * h as int + l as int
    ensures b == (h << 4) | l
  {}

  function JoinedTable(key: nat): (t3: seq<nat>)
    ensures |t3| == 256 && forall k :: 0 <= k < 256 ==> t3[k] < 256
  {
    var t1 := KeyBytes(key);
    seq(256, k requires 0 <= k < 256 => Joined(Table56(t1[0]), RowKeys(t1), k))
  }

  /** Step `n` of the walk. */
  function Walk(n: nat): (index: nat)
    ensures index < 256
  {
    17 * n % 256
  }

  /** What the first `n` steps of the walk put into the table: every byte met but 0 and 255. */
  function Kept(t3: seq<nat>, n: nat): seq<nat>
    requires |t3| == 256
  {
    if n == 0 then []
    else
      var a := t3[Walk(n)];
      Kept(t3, n - 1) + if a != 0 && a != 0xFF then [a] else []
  }

  /** The finished table. */
  function CipherTable(key: nat): seq<nat> {
    [0] + Kept(JoinedTable(key), 256) + [0xFF]
  }

  // ----- It is a permutation

  lemma JoinedIsDistinct(key: nat)
    ensures Distinct(JoinedTable(key))
  {
    hide Table56, RowKeys;
    var t1 := KeyBytes(key);
    var high, rowKeys := Table56(t1[0]), RowKeys(t1);
    Table56IsPermutation(t1[0]);
    forall k, l | 0 <= k < l < 256 ensures Joined(high, rowKeys, k) != Joined(high, rowKeys, l) {
      if k / 16 == l / 16 {
        Table56IsPermutation(rowKeys[k / 16]);
      } else {
        assert k / 16 < l / 16;
      }
    }
  }

  lemma WalkRepeats(n: nat, m: nat)
    requires Walk(n) == Walk(m)
    ensures (m - n) % 256 == 0
  {
    var q := 17 * m / 256 - 17 * n / 256;
    assert 17 * (m - n) == 256 * q;
    assert m - n == 256 * (241 * q - 16 * (m - n));
  }

  /** The stride of 17 meets no index twice in 256 steps. */
  lemma WalkIsDistinct(n: nat, m: nat)
    requires n < m < n + 256
    ensures Walk(n) != Walk(m)
  {
    if Walk(n) == Walk(m) {
      WalkRepeats(n, m);
    }
  }

  /** The walk meets byte `a` within `n` steps. */
  ghost predicate Met(t3: seq<nat>, n: nat, a: nat)
    requires |t3| == 256
  {
    exists i :: 1 <= i <= n && t3[Walk(i)] == a
  }

  /** What is kept so far is distinct, and is what was met but 0 and 255. */
  lemma {:induction false} KeptSoFar(t3: seq<nat>, n: nat)
    requires |t3| == 256 && Distinct(t3) && n <= 256
    ensures Distinct(Kept(t3, n))
    ensures forall a :: a in Kept(t3, n) <==> a != 0 && a != 0xFF && Met(t3, n, a)
  {
    hide Walk;
    if n > 0 {
      KeptSoFar(t3, n - 1);
      var last := t3[Walk(n)];
      forall i: nat | 1 <= i < n ensures t3[Walk(i)] != last {
        WalkIsDistinct(i, n);
        assert Walk(i) < Walk(n) || Walk(n) < Walk(i);
      }
      assert !Met(t3, n - 1, last) && last !in Kept(t3, n - 1);
      forall a ensures Met(t3, n, a) <==> Met(t3, n - 1, a) || a == last {
        if Met(t3, n, a) {
          var i :| 1 <= i <= n && t3[Walk(i)] == a;
          assert i <= n - 1 || a == last;
        }
      }
    }
  }

  /** In 256 steps the walk meets every byte. */
  lemma WalkMeetsAll(t3: seq<nat>, a: nat)
    requires |t3| == 256 && Distinct(t3) && a < 256 && forall k :: 0 <= k < 256 ==> t3[k] < 256
    ensures Met(t3, 256, a)
  {
    hide Walk;
    var met := seq(256, i requires 0 <= i < 256 => t3[Walk(i + 1)]);
    forall k, l | 0 <= k < l < 256 ensures met[k] != met[l] {
      WalkIsDistinct(k + 1, l + 1);
      assert Walk(k + 1) < Walk(l + 1) || Walk(l + 1) < Walk(k + 1);
    }
    DistinctCovers(met, 256, a);
    var k :| 0 <= k < 256 && met[k] == a;
    assert t3[Walk(k + 1)] == a;
  }

  /** At no step are more than 254 bytes kept, so the fill never runs past index 254. */
  lemma KeptFits(key: nat, n: nat)
    requires n <= 256
    ensures |Kept(JoinedTable(key), n)| <= 254
    ensures forall k :: 0 <= k < |Kept(JoinedTable(key), n)| ==> 0 < Kept(JoinedTable(key), n)[k] < 0xFF
  {
    hide JoinedTable, Walk;
    var t3 := JoinedTable(key);
    JoinedIsDistinct(key);
    KeptSoFar(t3, n);
    var kept := Kept(t3, n);
    forall k | 0 <= k < |kept| ensures 0 < kept[k] < 0xFF {
      assert kept[k] in kept;
      var i :| 1 <= i <= n && t3[Walk(i)] == kept[k];
    }
    var shifted: seq<nat> := seq(|kept|, k requires 0 <= k < |kept| => kept[k] - 1);
    DistinctFits(shifted, 254);
  }

  /** For every key the walk keeps exactly 254 bytes, and the table is a permutation of the bytes
      that fixes 0 and 255. */
  lemma CipherTableIsPermutation(key: nat)
    ensures var table := CipherTable(key);
      && |table| == 256 && table[0] == 0 && table[0xFF] == 0xFF
      && Distinct(table) && forall a: nat :: a < 256 <==> a in table
  {
    hide JoinedTable, Walk, Kept;
    var t3 := JoinedTable(key);
    var kept := Kept(t3, 256);
    JoinedIsDistinct(key);
    KeptSoFar(t3, 256);
    KeptFits(key, 256);
    var table := CipherTable(key);
    forall a: nat | a < 256 ensures a in table {
      WalkMeetsAll(t3, a);
      assert table[0] == 0 && table[|table| - 1] == 0xFF && table[1..|table| - 1] == kept;
      assert a in kept || a == 0 || a == 0xFF;
    }
    CoveringIsLong(table, 256);
    assert forall k :: 0 < k < 255 ==> table[k] == kept[k - 1];
  }

  /** Entries 1 to 254 are the joined table's bytes at every seventeenth index, from 17 on and round
      again, with 0 and 255 passed over. */
  lemma WalkOrder(key: nat) returns (steps: seq<nat>)
    ensures |steps| == 254 && |CipherTable(key)| == 256
    ensures forall k :: 0 <= k < 254 ==>
      1 <= steps[k] <= 256 && CipherTable(key)[k + 1] == JoinedTable(key)[17 * steps[k] % 256]
    ensures forall k, l :: 0 <= k < l < 254 ==> steps[k] < steps[l]
    ensures forall n :: 1 <= n <= 256 && n !in steps ==> JoinedTable(key)[17 * n % 256] in {0, 255}
  {
    hide JoinedTable, Kept;
    KeptEnds(key);
    CipherTableLength(key);
    var t3 := JoinedTable(key);
    steps := StepsKept(t3, 256);
    assert CipherTable(key)[1..255] == Kept(t3, 256);
    assert forall k :: 0 <= k < 254 ==> CipherTable(key)[1..255][k] == CipherTable(key)[k + 1];
  }

  lemma {:induction false} StepsKept(t3: seq<nat>, n: nat) returns (steps: seq<nat>)
    requires |t3| == 256
    ensures |steps| == |Kept(t3, n)|
    ensures forall k :: 0 <= k < |steps| ==> 1 <= steps[k] <= n && Kept(t3, n)[k] == t3[17 * steps[k] % 256]
    ensures forall k, l :: 0 <= k < l < |steps| ==> steps[k] < steps[l]
    ensures forall i :: 1 <= i <= n && i !in steps ==> t3[17 * i % 256] in {0, 255}
  {
    steps := [];
    if n > 0 {
      steps := StepsKept(t3, n - 1);
      if t3[Walk(n)] != 0 && t3[Walk(n)] != 0xFF {
        steps := steps + [n];
      }
    }
  }

  /** Keys that agree modulo 2^56 have one table; so 0 and the wrapped 2^56 do. */
  lemma SameTableForSameLowBits(key: nat, other: nat)
    requires key % KEY_SPACE == other % KEY_SPACE
    ensures CipherTable(key) == CipherTable(other)
  {
    var q := key / KEY_SPACE - other / KEY_SPACE;
    assert key - 1 == other - 1 + KEY_SPACE * q;
    DivisionUnique(key - 1, KEY_SPACE, (other - 1) / KEY_SPACE + q, (other - 1) % KEY_SPACE);
  }

  // ----- The methods

  /** `build_cipher_table`. Entry 0xFF is set after the fill, which ends exactly there. */
  method BuildCipherTable(key: nat) returns (table: seq<nat>)
    ensures table == CipherTable(key)
  {
    hide Walk, Kept, JoinedTable;
    var t1 := KeyBytes(key);
    var t3 := JoinTables(key, t1);
    KeptEnds(key);
    var filled := new nat[0x100](_ => 0);
    var iTable := 1;
    var v := 0;
    for n := 0 to 0x100
      invariant v == Walk(n)
      invariant iTable == 1 + |Kept(t3, n)| <= 0xFF && filled[0] == 0 && filled[0xFF] == 0
      invariant forall k :: 0 <= k < |Kept(t3, n)| ==> filled[k + 1] == Kept(t3, n)[k]
    {
      v := (v + 0x11) % 0x100;
      WalkSteps(n);
      KeptGrows(t3, n + 1);
      KeptFits(key, n + 1);
      var a := t3[v];
      if a != 0 && a != 0xFF {
        filled[iTable] := a;
        iTable := iTable + 1;
      }
    }
    filled[0] := 0;
    filled[0xFF] := 0xFF;
    table := filled[..];
    CipherTableIsPermutation(key);
    assert table == CipherTable(key);
  }

  lemma WalkSteps(n: nat)
    ensures Walk(n + 1) == (Walk(n) + 0x11) % 0x100 && Walk(0) == 0
  {
    DivisionUnique(17 * n + 17, 256, 17 * n / 256 + (Walk(n) + 17) / 256, (Walk(n) + 17) % 256);
  }

  lemma KeptGrows(t3: seq<nat>, n: nat)
    requires |t3| == 256 && n > 0
    ensures Kept(t3, n) == Kept(t3, n - 1) + if t3[Walk(n)] != 0 && t3[Walk(n)] != 0xFF then [t3[Walk(n)]] else []
  {}

  lemma KeptEnds(key: nat)
    ensures Kept(JoinedTable(key), 0) == [] && Walk(0) == 0 && |Kept(JoinedTable(key), 256)| == 254
  {
    hide JoinedTable, Table56, Joined;
    CipherTableIsPermutation(key);
    CipherTableLength(key);
  }

  lemma CipherTableLength(key: nat)
    ensures |CipherTable(key)| == |Kept(JoinedTable(key), 256)| + 2
  {
    hide JoinedTable, Kept;
  }

  method JoinTables(key: nat, t1: seq<Entry>) returns (t3: seq<nat>)
    requires t1 == KeyBytes(key)
    ensures t3 == JoinedTable(key)
  {
    hide KeyBytes, RowKeys, Table56;
    var t2 := RowKeys(t1);
    var t31 := CreateTable56(t1[0]);
    t3 := [];
    for i := 0 to 16
      invariant |t3| == i * 16 && forall k :: 0 <= k < |t3| ==> t3[k] == Joined(t31, t2, k)
    {
      var t32 := CreateTable56(t2[i]);
      for j := 0 to 16
        invariant |t3| == i * 16 + j && forall k :: 0 <= k < |t3| ==> t3[k] == Joined(t31, t2, k)
      {
        assert (i * 16 + j) / 16 == i && (i * 16 + j) % 16 == j;
        t3 := t3 + [t31[i] * 16 + t32[j]];
      }
    }
  }

  // ----- What decryption does with it

  function TableAt(key: nat, a: nat): (b: nat)
    requires a < 256
    ensures b < 256
  {
    CipherTableIsPermutation(key);
    var table := CipherTable(key);
    assert table[a] in table;
    table[a]
  }

  function TranslatedByte(key: nat, b: byte): byte {
    ByteOf(TableAt(key, b as int))
  }

  lemma TableIsTranslation(table: seq<nat>, key: nat, b: byte)
    requires table == CipherTable(key)
    ensures 0 <= b as int < |table| && 0 <= table[b as int] < 256
    ensures ByteOf(table[b as int]) == TranslatedByte(key, b)
  {
    CipherTableIsPermutation(key);
    ByteComesBack(b);
    assert table[b as int] == TableAt(key, b as int);
  }

  /** `data.translate(table)`. */
  function Translated(data: seq<byte>, key: nat): (out: seq<byte>)
    ensures |out| == |data|
  {
    seq(|data|, i requires 0 <= i < |data| => TranslatedByte(key, data[i]))
  }

  /** Each byte is looked up in the key's table. */
  lemma TranslationLooksUp(data: seq<byte>, key: nat, i: nat)
    requires i < |data|
    ensures |CipherTable(key)| == 256 && Translated(data, key)[i] as int == CipherTable(key)[data[i] as int]
  {
    hide CipherTable;
    CipherTableIsPermutation(key);
    TableIsTranslation(CipherTable(key), key, data[i]);
  }

  lemma DistinctBytesStay(key: nat, a: byte, b: byte)
    ensures TranslatedByte(key, a) == TranslatedByte(key, b) <==> a == b
  {
    hide TableAt, ByteOf;
    ByteComesBack(a);
    ByteComesBack(b);
    if a != b {
      TableKeepsApart(key, a as int, b as int);
    }
  }

  lemma TableKeepsApart(key: nat, k: nat, l: nat)
    requires k < 256 && l < 256 && k != l
    ensures TableAt(key, k) != TableAt(key, l)
  {
    hide CipherTable;
    CipherTableIsPermutation(key);
    var table := CipherTable(key);
    assert if k < l then table[k] != table[l] else table[l] != table[k];
  }

  lemma SourceByte(key: nat, b: byte) returns (a: byte)
    ensures TranslatedByte(key, a) == b
  {
    CipherTableIsPermutation(key);
    var table := CipherTable(key);
    var v: nat := b as int;
    assert v in table;
    var k :| 0 <= k < |table| && table[k] == v;
    a := ByteOf(k);
    ByteComesBack(b);
  }

  /** Translation is a bijection on the byte strings of each length, for every key: equal results
      come from equal strings, and every string is a result. */
  lemma TranslationIsInjective(a: seq<byte>, b: seq<byte>, key: nat)
    ensures Translated(a, key) == Translated(b, key) <==> a == b
  {
    hide TranslatedByte;
    if Translated(a, key) == Translated(b, key) {
      forall i | 0 <= i < |a| ensures a[i] == b[i] {
        assert Translated(a, key)[i] == Translated(b, key)[i];
        DistinctBytesStay(key, a[i], b[i]);
      }
    }
  }

  lemma {:induction false} TranslationIsSurjective(target: seq<byte>, key: nat) returns (source: seq<byte>)
    ensures Translated(source, key) == target
  {
    hide TranslatedByte;
    if target == [] {
      source := [];
    } else {
      var front := TranslationIsSurjective(target[..|target| - 1], key);
      var b := SourceByte(key, target[|target| - 1]);
      source := front + [b];
      assert Translated(source, key) == Translated(front, key) + [TranslatedByte(key, b)];
    }
  }
}
