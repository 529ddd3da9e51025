/** The 32-byte block mask of stages/usm.py, and the key it gives back. */
module BlockMask {
  import opened Bytes

  const BLOCK := 32
  // A real key has 56 bits.
  const KEY_SPACE := 0x100_0000_0000_0000

  /** One entry of the mask while it is computed with. `bytes(m)` turns it into a byte. */
  type Entry = n: int | 0 <= n < 256

  type Mask = m: seq<Entry> | |m| == 32 witness seq(32, _ => 0)

  /** The first seven mask entries. Every other entry is determined by them. */
  type Seeds = s: seq<Entry> | |s| == 7 witness seq(7, _ => 0)

  // `(x + y) & 0xFF`, `(x - y) & 0xFF` and `x ^ y`.
  function Add(x: Entry, y: Entry): (z: Entry)
    ensures z == (x + y) % 256
  {
    if x + y < 256 then x + y else x + y - 256
  }

  function Sub(x: Entry, y: Entry): (z: Entry)
    ensures z == (x - y) % 256
  {
    if x < y then x - y + 256 else x - y
  }

  function Xor(x: Entry, y: Entry): Entry { (ByteOf(x) ^ ByteOf(y)) as int }

  /** The seeds of a key, from its little-endian bytes. Byte 7 is never read. */
  function SeedsOf(key: nat): Seeds {
    var k := KeyEntries(key);
    [k[0], k[1], k[2], Sub(k[3], 0x34), Add(k[4], 0xF9), Xor(k[5], 0x13), Add(k[6], 0x61)]
  }

  /** The seeds give back the key's bytes: the first three as they are, and the others with 0x34 and
      0x61 taken off or 0xF9 and 0x13 put on. */
  lemma SeedsInBytes(key: nat)
    ensures var s, bytes := SeedsOf(key), ToLittleEndian(key, 8);
      && (forall p :: 0 <= p < 3 ==> ByteOf(s[p]) == bytes[p])
      && (s[3] as int + 0x34) % 256 == bytes[3] as int && (bytes[4] as int + 0xF9) % 256 == s[4]
      && ByteOf(s[5]) == bytes[5] ^ 0x13 && (bytes[6] as int + 0x61) % 256 == s[6]
  {
    hide ToLittleEndian, ByteOf;
    var bytes := ToLittleEndian(key, 8);
    forall p | 0 <= p < 8 ensures ByteOf(bytes[p] as int) == bytes[p] {
      ByteComesBack(bytes[p]);
    }
    XorAsBytes(KeyEntries(key)[5], 0x13);
    assert ByteOf(0x13) == 0x13 by {
      ByteComesBack(0x13);
    }
  }

  function KeyEntries(key: nat): (k: seq<Entry>)
    ensures |k| == 8
  {
    var bytes := ToLittleEndian(key, 8);
    seq(8, i requires 0 <= i < 8 => bytes[i] as int)
  }

  /** Every mask entry written out as a function of the seeds alone, simplified. */
  function MaskOf(s: Seeds): Mask {
    s + LowEntries(s[0], s[1], s[2], s[3]) + HighEntries(s[0], s[1], s[2], s[3], s[4], s[5], s[6])
  }

  function LowEntries(a: Entry, b: Entry, c: Entry, d: Entry): (low: seq<Entry>)
    ensures |low| == 12
  {
    hide Add, Sub, Xor;
    [ 0xFF - a, Add(b, c), Add(Add(a, b), 1), 0xFF - c, 0xFF - b, a, Sub(Add(b, c), d), Sub(Sub(Sub(d, b), c), 1),
      Sub(b, c), Add(c, c), Xor(Add(c, c), 0xFF - a), Sub(Sub(c, b), 1) ]
  }

  function HighEntries(a: Entry, b: Entry, c: Entry, d: Entry, e: Entry, f: Entry, g: Entry): (high: seq<Entry>)
    ensures |high| == 13
  {
    hide Add, Sub, Xor;
    var d', e', g', t := Xor(d, 0x10), Sub(e, 0x32), Xor(g, 0xF3), Add(Sub(Xor(d, 0x10), b), c);
    [ d', e', Sub(f, 0x13), g', t, Sub(Sub(f, 0x14), a), Sub(0x21, d'), Xor(e', t), Add(g', g'), Add(t, 0x44),
      Add(d, e), Sub(f, g'), Xor(Add(d, e), d') ]
  }

  // The rules that tie each entry to earlier ones, grouped by the key bytes they follow from.

  ghost predicate Rules12(m: Mask) {
    && m[0x08] == Add(m[0x02], m[0x01])
    && m[0x0A] == Xor(m[0x02], 0xFF)
    && m[0x0B] == Xor(m[0x01], 0xFF)
    && m[0x0F] == Sub(m[0x0A], m[0x0B])
    && m[0x10] == Sub(m[0x08], m[0x0F])
    && m[0x12] == Xor(m[0x0F], 0xFF)
  }

  ghost predicate Rules0(m: Mask) {
    && m[0x07] == Xor(m[0x00], 0xFF)
    && m[0x09] == Sub(m[0x01], m[0x07])
    && m[0x0C] == Add(m[0x0B], m[0x09])
    && m[0x11] == Xor(m[0x10], m[0x07])
  }

  ghost predicate Rules3Low(m: Mask) {
    && m[0x0D] == Sub(m[0x08], m[0x03])
    && m[0x0E] == Xor(m[0x0D], 0xFF)
  }

  ghost predicate Rules3High(m: Mask) {
    && m[0x13] == Xor(m[0x03], 0x10)
    && m[0x17] == Sub(m[0x13], m[0x0F])
    && m[0x19] == Sub(0x21, m[0x13])
    && m[0x1C] == Add(m[0x17], 0x44)
  }

  ghost predicate Rules4(m: Mask) {
    && m[0x14] == Sub(m[0x04], 0x32)
    && m[0x1A] == Xor(m[0x14], m[0x17])
    && m[0x1D] == Add(m[0x03], m[0x04])
    && m[0x1F] == Xor(m[0x1D], m[0x13])
  }

  ghost predicate Rules6(m: Mask) {
    && m[0x16] == Xor(m[0x06], 0xF3)
    && m[0x1B] == Add(m[0x16], m[0x16])
  }

  ghost predicate Rules5(m: Mask) {
    && m[0x15] == Add(m[0x05], 0xED)
    && m[0x18] == Add(m[0x15], m[0x07])
    && m[0x1E] == Sub(m[0x05], m[0x16])
  }

  ghost predicate ChainedLow(m: Mask) {
    Rules12(m) && Rules0(m) && Rules3Low(m)
  }

  ghost predicate ChainedHigh(m: Mask) {
    Rules3High(m) && Rules4(m) && Rules6(m) && Rules5(m)
  }

  /** Every rule of `build_mask`. */
  ghost predicate Chained(m: Mask) {
    ChainedLow(m) && ChainedHigh(m)
  }

  lemma FlipIsComplement(x: Entry)
    ensures Xor(x, 0xFF) == 0xFF - x
  {
    var b := ByteOf(x);
    ComplementOfByte(b);
  }

  lemma ComplementOfByte(b: byte)
    ensures (b ^ 0xFF) as int == 0xFF - b as int
  {}

  /** The rules whose closed form is simplified. */
  lemma SimplifiedRules(a: Entry, b: Entry, c: Entry, d: Entry, f: Entry, x: Entry)
    ensures Sub(b, 0xFF - a) == Add(Add(a, b), 1)
    ensures Add(0xFF - b, Add(Add(a, b), 1)) == a
    ensures 0xFF - Sub(Add(b, c), d) == Sub(Sub(Sub(d, b), c), 1)
    ensures Sub(0xFF - c, 0xFF - b) == Sub(b, c)
    ensures Sub(Add(b, c), Sub(b, c)) == Add(c, c)
    ensures 0xFF - Sub(b, c) == Sub(Sub(c, b), 1)
    ensures Sub(x, Sub(b, c)) == Add(Sub(x, b), c)
    ensures Add(f, 0xED) == Sub(f, 0x13)
    ensures Add(Sub(f, 0x13), 0xFF - a) == Sub(Sub(f, 0x14), a)
    ensures Add(b, c) == Add(c, b)
  {}

  lemma ClosedFormChainedLow(s: Seeds)
    ensures ChainedLow(MaskOf(s))
  {
    hide Add, Sub, Xor;
    var a, b, c, d := s[0], s[1], s[2], s[3];
    FlipIsComplement(a);
    FlipIsComplement(b);
    FlipIsComplement(c);
    FlipIsComplement(Sub(Add(b, c), d));
    FlipIsComplement(Sub(b, c));
    SimplifiedRules(a, b, c, d, s[5], d);
  }

  lemma ClosedFormChainedHigh(s: Seeds)
    ensures ChainedHigh(MaskOf(s))
  {
    hide Add, Sub, Xor;
    SimplifiedRules(s[0], s[1], s[2], s[3], s[5], Xor(s[3], 0x10));
  }

  /** The closed form satisfies every rule of the chain. */
  lemma ClosedFormChained(s: Seeds)
    ensures Chained(MaskOf(s))
  {
    hide Add, Sub, Xor, MaskOf;
    ClosedFormChainedLow(s);
    ClosedFormChainedHigh(s);
  }

  lemma ChainDetermines(m: Mask, n: Mask)
    requires Chained(m) && Chained(n) && forall j :: 0 <= j < 7 ==> m[j] == n[j]
    ensures m == n
  {
    hide ChainedLow, ChainedHigh;
    LowDetermines(m, n);
    HighDetermines(m, n);
  }

  lemma LowDetermines(m: Mask, n: Mask)
    requires ChainedLow(m) && ChainedLow(n) && forall j :: 0 <= j < 7 ==> m[j] == n[j]
    ensures forall j :: 0 <= j < 0x13 ==> m[j] == n[j]
  {
    hide Add, Sub, Xor;
  }

  lemma HighDetermines(m: Mask, n: Mask)
    requires ChainedHigh(m) && ChainedHigh(n) && forall j :: 0 <= j < 0x13 ==> m[j] == n[j]
    ensures forall j :: 0 <= j < 0x20 ==> m[j] == n[j]
  {
    hide Add, Sub, Xor;
  }

  /** `USM.build_mask` fills its buffer entry by entry, each from entries before it, and ends
      at the closed form. */
  method BuildMask(key: nat) returns (mask: Mask)
    requires key < 0x1_0000_0000_0000_0000
    ensures mask == MaskOf(SeedsOf(key))
  {
    hide Add, Sub, Xor, MaskOf, KeyEntries;
    var k := KeyEntries(key);
    var m := new Entry[32](_ => 0);
    m[0x00] := k[0];
    m[0x01] := k[1];
    m[0x02] := k[2];
    m[0x03] := Sub(k[3], 0x34);
    m[0x04] := Add(k[4], 0xF9);
    m[0x05] := Xor(k[5], 0x13);
    m[0x06] := Add(k[6], 0x61);
    FillLow(m);
    FillHigh(m);
    mask := m[..];
    ghost var s := SeedsOf(key);
    ClosedFormChained(s);
    MaskStartsWithSeeds(s);
    ChainDetermines(mask, MaskOf(s));
  }

  /** Entries 0x07 to 0x12 of `build_mask`. */
  method FillLow(m: array<Entry>)
    requires m.Length == 32
    modifies m
    ensures ChainedLow(m[..])
    ensures forall j :: 0 <= j < 7 ==> m[j] == old(m[j])
  {
    hide Add, Sub, Xor;
    m[0x07] := Xor(m[0x00], 0xFF);
    m[0x08] := Add(m[0x02], m[0x01]);
    m[0x09] := Sub(m[0x01], m[0x07]);
    m[0x0A] := Xor(m[0x02], 0xFF);
    m[0x0B] := Xor(m[0x01], 0xFF);
    m[0x0C] := Add(m[0x0B], m[0x09]);
    m[0x0D] := Sub(m[0x08], m[0x03]);
    m[0x0E] := Xor(m[0x0D], 0xFF);
    m[0x0F] := Sub(m[0x0A], m[0x0B]);
    m[0x10] := Sub(m[0x08], m[0x0F]);
    m[0x11] := Xor(m[0x10], m[0x07]);
    m[0x12] := Xor(m[0x0F], 0xFF);
  }

  /** Entries 0x13 to 0x1F of `build_mask`. */
  method FillHigh(m: array<Entry>)
    requires m.Length == 32
    modifies m
    ensures ChainedHigh(m[..])
    ensures forall j :: 0 <= j < 0x13 ==> m[j] == old(m[j])
  {
    hide Add, Sub, Xor;
    m[0x13] := Xor(m[0x03], 0x10);
    m[0x14] := Sub(m[0x04], 0x32);
    m[0x15] := Add(m[0x05], 0xED);
    m[0x16] := Xor(m[0x06], 0xF3);
    m[0x17] := Sub(m[0x13], m[0x0F]);
    m[0x18] := Add(m[0x15], m[0x07]);
    m[0x19] := Sub(0x21, m[0x13]);
    m[0x1A] := Xor(m[0x14], m[0x17]);
    m[0x1B] := Add(m[0x16], m[0x16]);
    m[0x1C] := Add(m[0x17], 0x44);
    m[0x1D] := Add(m[0x03], m[0x04]);
    m[0x1E] := Sub(m[0x05], m[0x16]);
    m[0x1F] := Xor(m[0x1D], m[0x13]);
  }

  lemma MaskStartsWithSeeds(s: Seeds)
    ensures forall j :: 0 <= j < 7 ==> MaskOf(s)[j] == s[j]
  {}

  /** `key_from_mask`: undoes the seven key-byte rules and reads the bytes little-endian. */
  function KeyFromMask(m: Mask): nat {
    FromLittleEndian(KeyBytesOf(m[0], m[1], m[2], m[3], m[4], m[5], m[6]))
  }

  function KeyBytesOf(a: Entry, b: Entry, c: Entry, d: Entry, e: Entry, f: Entry, g: Entry): (k: seq<byte>)
    ensures |k| == 7
  {
    [ByteOf(a), ByteOf(b), ByteOf(c), ByteOf(Add(d, 0x34)), ByteOf(Sub(e, 0xF9)), ByteOf(Xor(f, 0x13)),
     ByteOf(Sub(g, 0x61))]
  }

  lemma KeyRulesInvert(d: Entry, e: Entry, f: Entry, g: Entry)
    ensures Add(Sub(d, 0x34), 0x34) == d && Sub(Add(d, 0x34), 0x34) == d
    ensures Sub(Add(e, 0xF9), 0xF9) == e && Add(Sub(e, 0xF9), 0xF9) == e
    ensures Xor(Xor(f, 0x13), 0x13) == f
    ensures Sub(Add(g, 0x61), 0x61) == g && Add(Sub(g, 0x61), 0x61) == g
  {
    hide Xor;
    XorUndoesItself(f, 0x13);
  }

  lemma XorUndoesItself(x: Entry, y: Entry)
    ensures Xor(Xor(x, y), y) == x
  {
    XorAsBytes(x, y);
    hide Xor;
    XorIsInt(Xor(x, y), y);
    var b, c := ByteOf(x), ByteOf(y);
    XorBytesUndone(b, c, b ^ c);
  }

  lemma XorAsBytes(x: Entry, y: Entry)
    ensures ByteOf(Xor(x, y)) == ByteOf(x) ^ ByteOf(y)
  {
    ByteComesBack(ByteOf(x) ^ ByteOf(y));
  }

  lemma XorIsInt(x: Entry, y: Entry)
    ensures Xor(x, y) == (ByteOf(x) ^ ByteOf(y)) as int
  {}

  lemma XorBytesUndone(b: byte, c: byte, d: byte)
    requires d == b ^ c
    ensures d ^ c == b
  {}

  lemma {:induction false} LittleEndianPrefix(value: nat, n: nat)
    ensures ToLittleEndian(value, n + 1)[..n] == ToLittleEndian(value, n)
  {
    hide LowByte;
    if n > 0 {
      LittleEndianPrefix(value / 256, n - 1);
      assert ToLittleEndian(value, n + 1)[..n] == [LowByte(value)] + ToLittleEndian(value / 256, n)[..n - 1];
    }
  }

  /** The mask gives back the low 56 bits of its key. */
  lemma KeyFromMaskOfKey(key: nat)
    ensures KeyFromMask(MaskOf(SeedsOf(key))) == key % KEY_SPACE
  {
    hide Add, Sub, Xor, MaskOf, ToLittleEndian, FromLittleEndian;
    var s := SeedsOf(key);
    MaskStartsWithSeeds(s);
    var k := KeyEntries(key);
    KeyRulesInvert(k[3], k[4], k[5], k[6]);
    var low := ToLittleEndian(key, 7);
    LittleEndianPrefix(key, 7);
    forall i | 0 <= i < 7 ensures ByteOf(k[i]) == low[i] {
      ByteComesBack(ToLittleEndian(key, 8)[i]);
      assert ToLittleEndian(key, 8)[..7][i] == low[i];
    }
    assert KeyBytesOf(s[0], s[1], s[2], s[3], s[4], s[5], s[6]) == low;
    LittleEndianRoundTrip(key, 7);
    Pow256Of7();
  }

  lemma Pow256Of7()
    ensures Pow256(7) == KEY_SPACE
  {
    assert Pow256(4) == 0x1_0000_0000;
  }

  /** Every seed choice is the seeds of the key `key_from_mask` builds from it. */
  lemma SeedsOfKeyFromMask(m: Mask)
    ensures KeyFromMask(m) < KEY_SPACE
    ensures SeedsOf(KeyFromMask(m)) == m[..7]
  {
    hide Add, Sub, Xor, ToLittleEndian, FromLittleEndian;
    var low := KeyBytesOf(m[0], m[1], m[2], m[3], m[4], m[5], m[6]);
    var key := KeyFromMask(m);
    LittleEndianBound(low);
    Pow256Of7();
    LittleEndianUnique(low);
    LittleEndianPrefix(key, 7);
    var k := KeyEntries(key);
    forall i | 0 <= i < 7 ensures ByteOf(k[i]) == low[i] && k[i] == low[i] as int {
      ByteComesBack(low[i]);
      assert ToLittleEndian(key, 8)[..7][i] == low[i];
    }
    KeyRulesInvert(m[3], m[4], m[5], m[6]);
  }

  /** Two keys have one mask exactly when they agree modulo 2^56. */
  lemma SameMaskIffSameLowBits(key: nat, other: nat)
    ensures MaskOf(SeedsOf(key)) == MaskOf(SeedsOf(other))
       <==> key % KEY_SPACE == other % KEY_SPACE
  {
    hide Add, Sub, Xor, MaskOf, KeyFromMask;
    var m, n := MaskOf(SeedsOf(key)), MaskOf(SeedsOf(other));
    KeyFromMaskOfKey(key);
    KeyFromMaskOfKey(other);
    if key % KEY_SPACE == other % KEY_SPACE {
      SeedsOfKeyFromMask(m);
      SeedsOfKeyFromMask(n);
      ClosedFormChained(SeedsOf(key));
      ClosedFormChained(SeedsOf(other));
      assert forall j :: 0 <= j < 7 ==> m[..7][j] == m[j] && n[..7][j] == n[j];
      ChainDetermines(m, n);
    }
  }

  /** Among 32-byte strings, the masks of keys are exactly the chained ones. */
  lemma MaskIffChained(m: Mask)
    ensures Chained(m) <==> m == MaskOf(SeedsOf(KeyFromMask(m)))
  {
    hide Add, Sub, Xor, MaskOf, KeyFromMask;
    var s := SeedsOf(KeyFromMask(m));
    SeedsOfKeyFromMask(m);
    ClosedFormChained(s);
    MaskStartsWithSeeds(s);
    if Chained(m) {
      assert forall j :: 0 <= j < 7 ==> m[..7][j] == m[j];
      ChainDetermines(m, MaskOf(s));
    }
  }
}
