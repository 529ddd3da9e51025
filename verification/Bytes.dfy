/** Bytes, optional values and the integer encodings shared by every other module.
    A byte is a `bv8`, whose `+`, `-` and `^` wrap as the source's `& 0xFF` does. */
module Bytes {

  type byte = bv8

  datatype Option<+T> = None | Some(value: T)

  lemma NextByte(b: byte)
    ensures b < 255 ==> (b + 1) as int == b as int + 1
  {}

  function Plus(a: byte, b: byte): byte { a + b }

  function Before(b: byte): byte { b - 1 }

  lemma BeforeIs(b: byte)
    ensures b != 0 ==> Before(b) as int == b as int - 1
  {
    NextByte(b - 1);
  }

  lemma PlusNothing(a: byte)
    ensures Plus(a, 0) == a
  {}

  lemma PlusOneMore(a: byte, b: byte)
    ensures Plus(a, Before(b)) as int < 255 ==> Plus(a, b) as int == Plus(a, Before(b)) as int + 1
  {
    hide Plus, Before;
    PlusStep(a, b);
    NextValue(Plus(a, Before(b)));
  }

  lemma PlusStep(a: byte, b: byte)
    ensures Plus(a, b) == Plus(a, Before(b)) + 1
  {}

  lemma NextValue(b: byte)
    ensures b as int < 255 ==> (b + 1) as int == b as int + 1
  {
    NextByte(b);
  }

  /** A sum that fits has the value of the sum. */
  lemma {:induction false} SumOfBytes(a: byte, b: byte)
    requires a as int + b as int < 256
    ensures Plus(a, b) as int == a as int + b as int
    decreases b as int
  {
    hide Plus, Before;
    if b == 0 {
      PlusNothing(a);
    } else {
      BeforeIs(b);
      SumOfBytes(a, Before(b));
      PlusOneMore(a, b);
    }
  }

  /** Every number below 256 is some byte's value. */
  lemma {:induction false} ByteWith(n: nat) returns (b: byte)
    requires n < 256
    ensures b as int == n
  {
    if n == 0 {
      b := 0;
    } else {
      var before := ByteWith(n - 1);
      NextByte(before);
      b := before + 1;
    }
  }

  lemma ValueComesBack(b: byte)
    ensures (b as int) as byte == b
  {}

  lemma ByteHolds(n: nat)
    requires n < 256
    ensures (n as byte) as int == n
  {
    var b := ByteWith(n);
    ValueComesBack(b);
  }

  function ByteOf(n: int): (b: byte)
    requires 0 <= n < 256
    ensures b as int == n
  {
    ByteHolds(n);
    n as byte
  }

  lemma ByteComesBack(b: byte)
    ensures 0 <= b as int < 256 && ByteOf(b as int) == b
  {}

  function LowByte(n: int): (b: byte)
    ensures b as int == n % 256
  {
    ByteOf(n % 256)
  }

  /** `value.to_bytes(n, "little")`, keeping the low bytes of a number too large for it. */
  function ToLittleEndian(value: nat, n: nat): (bytes: seq<byte>)
    ensures |bytes| == n
  {
    if n == 0 then [] else [LowByte(value)] + ToLittleEndian(value / 256, n - 1)
  }

  /** `int.from_bytes(bytes, "little")`. */
  function FromLittleEndian(bytes: seq<byte>): nat {
    if bytes == [] then 0 else bytes[0] as int + 256 * FromLittleEndian(bytes[1..])
  }

  function Pow256(n: nat): (p: nat)
    ensures p > 0
  {
    if n == 0 then 1 else 256 * Pow256(n - 1)
  }

  lemma Widths()
    ensures Pow256(2) == 0x10000 && Pow256(4) == 0x1_0000_0000
  {
    assert Pow256(2) == 0x10000;
  }

  /** Encoding keeps the number modulo the width. */
  lemma {:induction false} LittleEndianRoundTrip(value: nat, n: nat)
    ensures FromLittleEndian(ToLittleEndian(value, n)) == value % Pow256(n)
  {
    if n > 0 {
      LittleEndianRoundTrip(value / 256, n - 1);
      var rest := ToLittleEndian(value / 256, n - 1);
      assert ToLittleEndian(value, n)[1..] == rest;
      SplitModulo(value, Pow256(n - 1));
      assert FromLittleEndian(ToLittleEndian(value, n)) == value % 256 + 256 * FromLittleEndian(rest);
    }
  }

  /** Decoding is undone by encoding at the same width. */
  lemma {:induction false} LittleEndianUnique(bytes: seq<byte>)
    ensures ToLittleEndian(FromLittleEndian(bytes), |bytes|) == bytes
  {
    if bytes != [] {
      LittleEndianUnique(bytes[1..]);
      SplitByte(bytes[0], FromLittleEndian(bytes[1..]), FromLittleEndian(bytes));
    }
  }

  lemma {:induction false} LittleEndianBound(bytes: seq<byte>)
    ensures FromLittleEndian(bytes) < Pow256(|bytes|)
  {
    if bytes != [] {
      LittleEndianBound(bytes[1..]);
    }
  }

  /** `value.to_bytes(n, "big")`, keeping the low bytes of a number too large for it. */
  function ToBigEndian(value: nat, n: nat): (bytes: seq<byte>)
    ensures |bytes| == n
  {
    if n == 0 then [] else ToBigEndian(value / 256, n - 1) + [LowByte(value)]
  }

  /** `int.from_bytes(bytes, "big")`. */
  function FromBigEndian(bytes: seq<byte>): nat {
    if bytes == [] then 0 else 256 * FromBigEndian(bytes[..|bytes| - 1]) + bytes[|bytes| - 1] as int
  }

  lemma TwoBytes(bytes: seq<byte>)
    requires |bytes| == 2
    ensures FromBigEndian(bytes) == 256 * bytes[0] as int + bytes[1] as int
  {
    assert FromBigEndian(bytes[..1]) == bytes[0] as int by {
      assert bytes[..1][..0] == [];
    }
  }

  lemma FourBytes(bytes: seq<byte>)
    requires |bytes| == 4
    ensures FromBigEndian(bytes)
         == 0x100_0000 * bytes[0] as int + 0x1_0000 * bytes[1] as int + 256 * bytes[2] as int + bytes[3] as int
  {
    assert bytes[..3][..2] == bytes[..2];
    TwoBytes(bytes[..2]);
    assert FromBigEndian(bytes[..3]) == 256 * FromBigEndian(bytes[..2]) + bytes[2] as int;
  }

  /** And lowest byte first, the other way round. */
  lemma FourBytesLittle(bytes: seq<byte>)
    requires |bytes| == 4
    ensures FromLittleEndian(bytes)
         == bytes[0] as int + 256 * bytes[1] as int + 0x1_0000 * bytes[2] as int + 0x100_0000 * bytes[3] as int
  {
    FirstByteLittle(bytes);
    FirstByteLittle(bytes[1..]);
    FirstByteLittle(bytes[1..][1..]);
    FirstByteLittle(bytes[1..][1..][1..]);
    assert FromLittleEndian(bytes[1..][1..][1..][1..]) == 0;
  }

  lemma FirstByteLittle(bytes: seq<byte>)
    requires bytes != []
    ensures FromLittleEndian(bytes) == bytes[0] as int + 256 * FromLittleEndian(bytes[1..])
  {}

  lemma {:induction false} BigEndianRoundTrip(value: nat, n: nat)
    requires value < Pow256(n)
    ensures FromBigEndian(ToBigEndian(value, n)) == value
  {
    hide LowByte;
    if n > 0 {
      assert value / 256 < Pow256(n - 1);
      BigEndianRoundTrip(value / 256, n - 1);
      var bytes := ToBigEndian(value, n);
      assert bytes[..n - 1] == ToBigEndian(value / 256, n - 1);
      assert bytes[n - 1] as int == value % 256;
    }
  }

  /** A big-endian number fits its width, and no other bytes of that width stand for it. */
  lemma {:induction false} BigEndianUnique(bytes: seq<byte>)
    ensures FromBigEndian(bytes) < Pow256(|bytes|)
    ensures ToBigEndian(FromBigEndian(bytes), |bytes|) == bytes
  {
    hide LowByte;
    if bytes != [] {
      var front, last := bytes[..|bytes| - 1], bytes[|bytes| - 1];
      BigEndianUnique(front);
      SplitByte(last, FromBigEndian(front), FromBigEndian(bytes));
    }
  }

  lemma SplitByte(b: byte, rest: nat, value: nat)
    requires value == b as int + 256 * rest
    ensures LowByte(value) == b && value / 256 == rest
  {
    assert value % 256 == b as int;
  }

  lemma SplitModulo(value: nat, p: nat)
    requires p > 0
    ensures value % (256 * p) == value % 256 + 256 * ((value / 256) % p)
  {
    var q, r := value / 256 / p, value / 256 % p;
    assert value / 256 == p * q + r;
    assert value == 256 * (value / 256) + value % 256;
    assert 256 * (p * q) == (256 * p) * q;
    DivisionUnique(value, 256 * p, q, value % 256 + 256 * r);
  }

  lemma DivisionUnique(value: int, m: int, q: int, r: int)
    requires m > 0 && value == m * q + r && 0 <= r < m
    ensures value % m == r && value / m == q
  {
    var q', r' := value / m, value % m;
    assert value == m * q' + r';
    assert m * (q - q') == m * q - m * q';
    ProductGrows(m, q - q');
  }

  lemma ProductGrows(m: int, k: int)
    requires m > 0
    ensures k >= 1 ==> m * k >= m
    ensures k <= -1 ==> m * k <= -m
  {
    if k >= 1 {
      assert m * k == m + m * (k - 1);
    } else if k <= -1 {
      assert m * k == -m + m * (k + 1);
    }
  }
}
