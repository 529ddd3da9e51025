/** The statistics of stages/crack.py: what `Stats` counts in the ciphertext, and what those
    counts say about the plaintext under a candidate mask. */
module CrackStats {
  import opened Bytes
  import opened BlockMask
  import opened VideoCipher
  import opened CrackSearch

  const WIDE_BEAM := 300
  const BEAM := 50
  const BIGRAM_WEIGHT := 25
  const BIGRAM_MIN_HITS := 100

  // ----- Counting

  function Rows(payload: seq<byte>): nat
    requires IsMasked(|payload|)
  {
    (|payload| - CIPHER_START) / BLOCK
  }

  /** Row `r` of the running XOR of the ciphertext. */
  ghost function RunningRow(payload: seq<byte>, r: nat): Block
    requires IsMasked(|payload|) && r < Rows(payload)
  {
    seq(32, j requires 0 <= j < 32 => Running(payload, CIPHER_START + r * BLOCK + j))
  }

  /** Rows 0, 2, 4, ... of the running XOR. */
  ghost function EvenRows(payload: seq<byte>): seq<Block>
    requires IsMasked(|payload|)
  {
    seq((Rows(payload) + 1) / 2, q requires 0 <= q < (Rows(payload) + 1) / 2 => RunningRow(payload, 2 * q))
  }

  ghost function OddRows(payload: seq<byte>): seq<Block>
    requires IsMasked(|payload|)
  {
    seq(Rows(payload) / 2, q requires 0 <= q < Rows(payload) / 2 => RunningRow(payload, 2 * q + 1))
  }

  function Flatten(lists: seq<seq<Block>>): seq<Block> {
    if lists == [] then [] else Flatten(lists[..|lists| - 1]) + lists[|lists| - 1]
  }

  /** `np.bincount(rows[:, j])[v]`. */
  function ColumnCount(rows: seq<Block>, j: nat, v: byte): nat
    requires j < 32
  {
    if rows == [] then 0
    else ColumnCount(rows[..|rows| - 1], j, v) + if rows[|rows| - 1][j] == v then 1 else 0
  }

  /** How many rows have `left` at `j` and `right` after it. */
  function PairCount(rows: seq<Block>, j: nat, left: byte, right: byte): nat
    requires j < 31
  {
    if rows == [] then 0
    else PairCount(rows[..|rows| - 1], j, left, right)
         + if rows[|rows| - 1][j] == left && rows[|rows| - 1][j + 1] == right then 1 else 0
  }

  /** How many of the first `n` adjacent pairs of a row are `v, v`. */
  function RowDoubles(row: Block, v: byte, n: nat): nat
    requires n <= 31
  {
    if n == 0 then 0 else RowDoubles(row, v, n - 1) + if row[n - 1] == v && row[n] == v then 1 else 0
  }

  function Doubles(rows: seq<Block>, v: byte): nat {
    if rows == [] then 0 else Doubles(rows[..|rows| - 1], v) + RowDoubles(rows[|rows| - 1], v, 31)
  }

  lemma {:induction false} DoublesConcat(a: seq<Block>, b: seq<Block>, v: byte)
    ensures Doubles(a + b, v) == Doubles(a, v) + Doubles(b, v)
  {
    if b == [] {
      assert a + b == a;
    } else {
      assert (a + b)[..|a + b| - 1] == a + b[..|b| - 1];
      DoublesConcat(a, b[..|b| - 1], v);
    }
  }

  // ----- The score tables

  /** The weights of a 00,00 and an FF,FF pair: their ratio in the odd rows, clamped to [1, 5]. */
  function Weights(zeroPairs: nat, ffPairs: nat): (int, int) {
    if zeroPairs + ffPairs < BIGRAM_MIN_HITS then (10, 4)
    else
      var ratio := zeroPairs as real / (if ffPairs > 1 then ffPairs else 1) as real;
      var clamped := if ratio < 1.0 then 1.0 else if ratio > 5.0 then 5.0 else ratio;
      var zero := Round(BIGRAM_WEIGHT as real * clamped / (1.0 + clamped));
      (zero, BIGRAM_WEIGHT - zero)
  }

  /** `round`, which takes a tie to the even side. */
  function Round(x: real): int {
    var low := x.Floor;
    var rest := x - low as real;
    if rest < 0.5 || (rest == 0.5 && low % 2 == 0) then low else low + 1
  }

  function Unigrams(even: seq<Block>): Unigram {
    seq(32, j requires 0 <= j < 32 => UnigramColumn(even, j))
  }

  function UnigramColumn(even: seq<Block>, j: nat): (column: seq<int>)
    requires j < 32
    ensures |column| == 256
  {
    seq(256, v requires 0 <= v < 256 => ColumnCount(even, j, ByteOf(v)) + ColumnCount(even, j, Flip(ByteOf(v))))
  }

  function Bigrams(even: seq<Block>, zeroWeight: int, ffWeight: int): Bigram {
    seq(31, j requires 0 <= j < 31 => BigramColumn(even, zeroWeight, ffWeight, j))
  }

  function BigramColumn(even: seq<Block>, zeroWeight: int, ffWeight: int, j: nat): (column: seq<int>)
    requires j < 31
    ensures |column| == 0x10000
  {
    seq(0x10000, k requires 0 <= k < 0x10000 => BigramEntry(even, zeroWeight, ffWeight, j, k))
  }

  /** `byte_flip`. */
  function Flip(v: byte): byte {
    v ^ 0xFF
  }

  function BigramEntry(even: seq<Block>, zeroWeight: int, ffWeight: int, j: nat, k: nat): int
    requires j < 31 && k < 0x10000
  {
    var left, right := ByteOf(k / 256), ByteOf(k % 256);
    Weighted(ffWeight, PairCount(even, j, left, right), zeroWeight, PairCount(even, j, Flip(left), Flip(right)))
  }

  function Weighted(ffWeight: int, ffs: int, zeroWeight: int, zeros: int): int {
    ffWeight * ffs + zeroWeight * zeros
  }

  class Stats {
    var evens: seq<seq<Block>>
    var zeroPairs: nat
    var ffPairs: nat
    var blocks: nat
    ghost var pool: seq<seq<byte>>

    /** The counters and rows are those of the payloads in the pool. */
    ghost predicate Valid()
      reads this
    {
      && (forall k :: 0 <= k < |pool| ==> IsMasked(|pool[k]|))
      && |evens| == |pool|
      && (forall k :: 0 <= k < |pool| ==> evens[k] == EvenRows(pool[k]))
      && zeroPairs == PoolDoubles(pool, 0)
      && ffPairs == PoolDoubles(pool, 0xFF)
      && blocks == PoolRows(pool)
    }

    constructor ()
      ensures Valid() && pool == []
    {
      evens, zeroPairs, ffPairs, blocks := [], 0, 0, 0;
      pool := [];
    }

    /** Takes in one masked payload. */
    method Add(payload: seq<byte>) returns (used: nat)
      requires Valid() && IsMasked(|payload|)
      modifies this
      ensures Valid() && pool == old(pool) + [payload] && used == Rows(payload) * BLOCK
    {
      var even, odd := SplitRows(payload);
      var zeros, ffs := CountDoubles(odd);
      evens := evens + [even];
      zeroPairs, ffPairs := zeroPairs + zeros, ffPairs + ffs;
      blocks := blocks + Rows(payload);
      used := Rows(payload) * BLOCK;
      pool := pool + [payload];
      assert pool[..|pool| - 1] == old(pool);
    }

    /** The score tables: the even rows are counted column by column, and each count is summed with
        that of the complement. */
    method Tables() returns (u: Unigram, b: Bigram)
      requires Valid() && evens != []
      ensures u == Unigrams(Flatten(evens))
      ensures var (zero, ff) := Weights(zeroPairs, ffPairs); b == Bigrams(Flatten(evens), zero, ff)
    {
      hide Weights, Flatten, Unigrams, Bigrams;
      var even := Concatenate(evens);
      var (zero, ff) := Weights(zeroPairs, ffPairs);
      u := UnigramTable(even);
      b := BigramTable(even, zero, ff);
    }
  }

  /** `np.concatenate`. */
  method Concatenate(lists: seq<seq<Block>>) returns (rows: seq<Block>)
    ensures rows == Flatten(lists)
  {
    rows := [];
    for k := 0 to |lists|
      invariant rows == Flatten(lists[..k])
    {
      assert lists[..k + 1][..k] == lists[..k];
      rows := rows + lists[k];
    }
    assert lists[..|lists|] == lists;
  }

  // ----- The tables are filled by counting

  /** `x ^ y` over the low `n` bits. */
  function XorBits(x: nat, y: nat, n: nat): nat {
    if n == 0 then 0 else 2 * XorBits(x / 2, y / 2, n - 1) + (if x % 2 == y % 2 then 0 else 1)
  }

  function Pow2(n: nat): (p: nat)
    ensures p > 0
  {
    if n == 0 then 1 else 2 * Pow2(n - 1)
  }

  lemma {:induction false} XorWithOnes(x: nat, n: nat)
    requires x < Pow2(n)
    ensures XorBits(x, Pow2(n) - 1, n) == Pow2(n) - 1 - x
  {
    if n > 0 {
      hide Pow2;
      var half, p := x / 2, Pow2(n - 1);
      HalfOfOnes(x, n);
      XorWithOnes(half, n - 1);
      assert XorBits(x, Pow2(n) - 1, n) == 2 * (p - 1 - half) + (if x % 2 == 1 then 0 else 1);
    }
  }

  lemma HalfOfOnes(x: nat, n: nat)
    requires n > 0 && x < Pow2(n)
    ensures Pow2(n) == 2 * Pow2(n - 1) && x / 2 < Pow2(n - 1) && x == 2 * (x / 2) + x % 2
    ensures (Pow2(n) - 1) / 2 == Pow2(n - 1) - 1 && (Pow2(n) - 1) % 2 == 1
  {}

  /** `byte_flip` and `pair_flip` turn a table round. */
  lemma FlipsTurnRound(v: nat, k: nat)
    ensures v < 0x100 ==> XorBits(v, 0xFF, 8) == 0xFF - v
    ensures k < 0x10000 ==> XorBits(k, 0xFFFF, 16) == 0xFFFF - k
  {
    hide XorBits;
    assert Pow2(8) == 0x100;
    assert Pow2(16) == 0x10000;
    if v < 0x100 {
      XorWithOnes(v, 8);
    }
    if k < 0x10000 {
      XorWithOnes(k, 16);
    }
  }

  lemma ComplementFlips(v: nat)
    requires v < 0x100
    ensures ByteOf(0xFF - v) == Flip(ByteOf(v))
  {
    hide ByteOf;
    var b := ByteOf(v);
    FlipIsRest(b);
    RestOfByte(b);
    SameByte(Flip(b), 0xFF - v);
  }

  lemma FlipIsRest(b: byte)
    ensures Flip(b) == 255 - b
  {}

  lemma {:induction false} RestOfByte(b: byte)
    ensures (255 - b) as int == 255 - b as int
    decreases b as int
  {
    if b != 0 {
      NextByte(b - 1);
      NextByte(255 - b);
      RestOfByte(b - 1);
    }
  }

  lemma SameByte(b: byte, v: nat)
    requires v < 0x100 && b as int == v
    ensures b == ByteOf(v)
  {
    hide ByteOf;
    IndexOfByte(b, v);
  }

  lemma IndexOfByte(left: byte, v: nat)
    requires v < 0x100
    ensures left == ByteOf(v) <==> left as int == v
  {}

  /** `np.bincount(rows[:, j], minlength=256)`. */
  method CountColumn(rows: seq<Block>, j: nat) returns (counts: array<nat>)
    requires j < 32
    ensures fresh(counts) && counts.Length == 0x100
    ensures forall v :: 0 <= v < 0x100 ==> counts[v] == ColumnCount(rows, j, ByteOf(v))
  {
    hide ByteOf, ColumnCount;
    counts := new nat[0x100](_ => 0);
    NothingCounted(j);
    for r := 0 to |rows|
      invariant forall v :: 0 <= v < 0x100 ==> counts[v] == ColumnCount(rows[..r], j, ByteOf(v))
    {
      forall v | 0 <= v < 0x100
        ensures ColumnCount(rows[..r + 1], j, ByteOf(v))
             == ColumnCount(rows[..r], j, ByteOf(v)) + if v == rows[r][j] as int then 1 else 0
      {
        OneMoreByte(rows, r, j, v);
      }
      counts[rows[r][j] as int] := counts[rows[r][j] as int] + 1;
    }
    assert rows[..|rows|] == rows;
  }

  lemma NothingCounted(j: nat)
    requires j < 32
    ensures forall v :: ColumnCount([], j, v) == 0
    ensures j < 31 ==> forall left, right :: PairCount([], j, left, right) == 0
  {}

  lemma OneMoreByte(rows: seq<Block>, r: nat, j: nat, v: nat)
    requires r < |rows| && j < 32 && v < 0x100
    ensures ColumnCount(rows[..r + 1], j, ByteOf(v))
         == ColumnCount(rows[..r], j, ByteOf(v)) + if v == rows[r][j] as int then 1 else 0
  {
    hide ByteOf;
    assert rows[..r + 1][..r] == rows[..r];
    IndexOfByte(rows[r][j], v);
  }

  /** `np.bincount` of the packed pairs `(rows[:, j] << 8) | rows[:, j + 1]`, 65536 wide. */
  method CountPairs(rows: seq<Block>, j: nat) returns (counts: array<nat>)
    requires j < 31
    ensures fresh(counts) && counts.Length == 0x10000
    ensures forall k :: 0 <= k < 0x10000 ==> counts[k] == PairCount(rows, j, ByteOf(k / 256), ByteOf(k % 256))
  {
    hide ByteOf, PairCount;
    counts := new nat[0x10000](_ => 0);
    NothingCounted(j);
    for r := 0 to |rows|
      invariant forall k :: 0 <= k < 0x10000 ==>
        counts[k] == PairCount(rows[..r], j, ByteOf(k / 256), ByteOf(k % 256))
    {
      var at := PairIndex(rows[r][j] as int, rows[r][j + 1] as int);
      forall k | 0 <= k < 0x10000
        ensures PairCount(rows[..r + 1], j, ByteOf(k / 256), ByteOf(k % 256))
             == PairCount(rows[..r], j, ByteOf(k / 256), ByteOf(k % 256)) + if k == at then 1 else 0
      {
        OneMorePair(rows, r, j, k);
      }
      counts[at] := counts[at] + 1;
    }
    assert rows[..|rows|] == rows;
  }

  lemma OneMorePair(rows: seq<Block>, r: nat, j: nat, k: nat)
    requires r < |rows| && j < 31 && k < 0x10000
    ensures PairCount(rows[..r + 1], j, ByteOf(k / 256), ByteOf(k % 256))
         == PairCount(rows[..r], j, ByteOf(k / 256), ByteOf(k % 256))
            + if k == PairIndex(rows[r][j] as int, rows[r][j + 1] as int) then 1 else 0
  {
    hide ByteOf, PairIndex;
    assert rows[..r + 1][..r] == rows[..r];
    PackedPair(rows[r][j], rows[r][j + 1], k);
  }

  lemma PackedPair(left: byte, right: byte, k: nat)
    requires k < 0x10000
    ensures left == ByteOf(k / 256) && right == ByteOf(k % 256) <==> k == PairIndex(left as int, right as int)
  {
    hide ByteOf, PairIndex;
    IndexOfByte(left, k / 256);
    IndexOfByte(right, k % 256);
    HighAndLow(left as int, right as int, k);
  }

  lemma HighAndLow(high: Entry, low: Entry, k: nat)
    ensures k == PairIndex(high, low) <==> high == k / 256 && low == k % 256
  {}

  /** `unigram + unigram[:, byte_flip]`. */
  method UnigramTable(even: seq<Block>) returns (u: Unigram)
    ensures u == Unigrams(even)
  {
    hide ByteOf, ColumnCount, XorBits, Flip;
    var table: seq<seq<int>> := [];
    for j := 0 to 32
      invariant |table| == j && forall i :: 0 <= i < j ==> table[i] == UnigramColumn(even, i)
    {
      var counts := CountColumn(even, j);
      forall v | 0 <= v < 0x100 ensures XorBits(v, 0xFF, 8) == 0xFF - v && ByteOf(0xFF - v) == Flip(ByteOf(v)) {
        FlipsTurnRound(v, 0);
        ComplementFlips(v);
      }
      var column := seq(0x100, v requires 0 <= v < 0x100 reads counts => counts[v] + counts[XorBits(v, 0xFF, 8)]);
      assert column == UnigramColumn(even, j);
      table := table + [column];
    }
    u := table;
  }

  /** `ff_weight * bigram + zero_weight * bigram[:, pair_flip]`. */
  method BigramTable(even: seq<Block>, zero: int, ff: int) returns (b: Bigram)
    ensures b == Bigrams(even, zero, ff)
  {
    hide BigramColumn;
    var table: seq<seq<int>> := [];
    for j := 0 to 31
      invariant |table| == j && forall i :: 0 <= i < j ==> table[i] == BigramColumn(even, zero, ff, i)
    {
      var column := WeighPairs(even, zero, ff, j);
      table := table + [column];
    }
    b := table;
  }

  method WeighPairs(even: seq<Block>, zero: int, ff: int, j: nat) returns (column: seq<int>)
    requires j < 31
    ensures column == BigramColumn(even, zero, ff, j)
  {
    hide ByteOf, PairCount, XorBits, Flip, Weighted, BigramEntry;
    var counts := CountPairs(even, j);
    forall k | 0 <= k < 0x10000
      ensures XorBits(k, 0xFFFF, 16) == 0xFFFF - k
      ensures BigramEntry(even, zero, ff, j, k) == Weighted(ff, counts[k], zero, counts[0xFFFF - k])
    {
      FlipsTurnRound(0, k);
      EntryIsWeighted(even, zero, ff, j, k);
    }
    column := seq(0x10000, k requires 0 <= k < 0x10000 reads counts =>
      Weighted(ff, counts[k], zero, counts[XorBits(k, 0xFFFF, 16)]));
  }

  lemma EntryIsWeighted(even: seq<Block>, zero: int, ff: int, j: nat, k: nat)
    requires j < 31 && k < 0x10000
    ensures BigramEntry(even, zero, ff, j, k)
         == Weighted(ff, PairCount(even, j, ByteOf(k / 256), ByteOf(k % 256)),
                     zero, PairCount(even, j, ByteOf((0xFFFF - k) / 256), ByteOf((0xFFFF - k) % 256)))
  {
    hide ByteOf, PairCount, Flip, Weighted;
    PairFlips(k);
  }

  /** Turned round as one 16-bit number, a pair has both its bytes flipped. */
  lemma PairFlips(k: nat)
    requires k < 0x10000
    ensures (0xFFFF - k) / 256 < 256
    ensures ByteOf((0xFFFF - k) / 256) == Flip(ByteOf(k / 256)) && ByteOf((0xFFFF - k) % 256) == Flip(ByteOf(k % 256))
  {
    hide ByteOf, Flip;
    assert (0xFFFF - k) / 256 == 0xFF - k / 256 && (0xFFFF - k) % 256 == 0xFF - k % 256;
    ComplementFlips(k / 256);
    ComplementFlips(k % 256);
  }

  ghost function PoolDoubles(pool: seq<seq<byte>>, v: byte): nat
    requires forall k :: 0 <= k < |pool| ==> IsMasked(|pool[k]|)
  {
    if pool == [] then 0
    else PoolDoubles(pool[..|pool| - 1], v) + Doubles(OddRows(pool[|pool| - 1]), v)
  }

  ghost function PoolRows(pool: seq<seq<byte>>): nat
    requires forall k :: 0 <= k < |pool| ==> IsMasked(|pool[k]|)
  {
    if pool == [] then 0 else PoolRows(pool[..|pool| - 1]) + Rows(pool[|pool| - 1])
  }

  /** The 00,00 and the FF,FF pairs of the rows. */
  method CountDoubles(rows: seq<Block>) returns (zeros: nat, ffs: nat)
    ensures zeros == Doubles(rows, 0) && ffs == Doubles(rows, 0xFF)
  {
    zeros, ffs := 0, 0;
    for r := 0 to |rows|
      invariant zeros == Doubles(rows[..r], 0) && ffs == Doubles(rows[..r], 0xFF)
    {
      assert rows[..r + 1][..r] == rows[..r];
      for j := 0 to 31
        invariant zeros == Doubles(rows[..r], 0) + RowDoubles(rows[r], 0, j)
        invariant ffs == Doubles(rows[..r], 0xFF) + RowDoubles(rows[r], 0xFF, j)
      {
        if rows[r][j] == 0 && rows[r][j + 1] == 0 {
          zeros := zeros + 1;
        }
        if rows[r][j] == 0xFF && rows[r][j + 1] == 0xFF {
          ffs := ffs + 1;
        }
      }
    }
    assert rows[..|rows|] == rows;
  }

  /** The running XOR of the rows, dealt into even and odd ones. */
  method SplitRows(payload: seq<byte>) returns (even: seq<Block>, odd: seq<Block>)
    requires IsMasked(|payload|)
    ensures even == EvenRows(payload) && odd == OddRows(payload)
  {
    hide Running, RunningRow, EvenRows, OddRows;
    even, odd := [], [];
    var running: Block := seq(32, _ => 0);
    var rows := Rows(payload);
    for r := 0 to rows
      invariant r > 0 ==> running == RunningRow(payload, r - 1)
      invariant r == 0 ==> running == seq(32, _ => 0)
      invariant |even| == (r + 1) / 2 && |odd| == r / 2
      invariant forall q :: 0 <= q < |even| ==> even[q] == RunningRow(payload, 2 * q)
      invariant forall q :: 0 <= q < |odd| ==> odd[q] == RunningRow(payload, 2 * q + 1)
    {
      NextRunningRow(payload, r, running);
      running := seq(32, j requires 0 <= j < 32 => payload[CIPHER_START + r * BLOCK + j] ^ running[j]);
      if r % 2 == 0 {
        even := even + [running];
      } else {
        odd := odd + [running];
      }
    }
    RowsDealt(payload, even, odd);
  }

  lemma RowsDealt(payload: seq<byte>, even: seq<Block>, odd: seq<Block>)
    requires IsMasked(|payload|) && |even| == (Rows(payload) + 1) / 2 && |odd| == Rows(payload) / 2
    requires forall q :: 0 <= q < |even| ==> even[q] == RunningRow(payload, 2 * q)
    requires forall q :: 0 <= q < |odd| ==> odd[q] == RunningRow(payload, 2 * q + 1)
    ensures even == EvenRows(payload) && odd == OddRows(payload)
  {
    hide RunningRow;
  }

  lemma NextRunningRow(payload: seq<byte>, r: nat, running: Block)
    requires IsMasked(|payload|) && r < Rows(payload)
    requires running == if r == 0 then seq(32, _ => 0) else RunningRow(payload, r - 1)
    ensures RunningRow(payload, r)
         == seq(32, j requires 0 <= j < 32 => payload[CIPHER_START + r * BLOCK + j] ^ running[j])
  {
    forall j | 0 <= j < 32
      ensures Running(payload, CIPHER_START + r * BLOCK + j) == payload[CIPHER_START + r * BLOCK + j] ^ running[j]
    {
      if r > 0 {
        assert running[j] == Running(payload, CIPHER_START + r * BLOCK + j - 32);
      }
    }
  }

  // ----- What the tables say about plaintext

  /** The plaintext of a payload under a candidate mask, as `decrypt_video` gives it. */
  ghost function PlainUnder(payload: seq<byte>, m: Mask): seq<byte> {
    Decrypted(payload, MaskBytes(m), Inverted(MaskBytes(m)))
  }

  /** Row `2 * q` of a payload's plaintext body under a candidate mask. */
  ghost function PlainRow(payload: seq<byte>, m: Mask, q: nat): Block
    requires IsMasked(|payload|) && 2 * q < Rows(payload)
  {
    PlainUnder(payload, m)[CIPHER_START + 2 * q * BLOCK..CIPHER_START + (2 * q + 1) * BLOCK]
  }

  /** The even rows of a payload's plaintext body under a candidate mask. */
  ghost function PlainEvenRows(payload: seq<byte>, m: Mask): seq<Block>
    requires IsMasked(|payload|)
  {
    seq((Rows(payload) + 1) / 2, q requires 0 <= q < (Rows(payload) + 1) / 2 => PlainRow(payload, m, q))
  }

  /** The even rows of the plaintext bodies of a pool under a candidate mask. */
  ghost function PoolPlain(pool: seq<seq<byte>>, m: Mask): seq<Block>
    requires forall k :: 0 <= k < |pool| ==> IsMasked(|pool[k]|)
  {
    if pool == [] then [] else PoolPlain(pool[..|pool| - 1], m) + PlainEvenRows(pool[|pool| - 1], m)
  }

  /** A row of the running XOR is its plaintext under the inverted candidate mask. */
  ghost predicate RowUnder(running: Block, plain: Block, m: Mask) {
    forall j :: 0 <= j < 32 ==> plain[j] == running[j] ^ Flip(ByteOf(m[j]))
  }

  ghost predicate RowsUnder(running: seq<Block>, plain: seq<Block>, m: Mask) {
    |running| == |plain| && forall r :: 0 <= r < |running| ==> RowUnder(running[r], plain[r], m)
  }

  lemma EvenRowUnder(payload: seq<byte>, m: Mask, q: nat)
    requires IsMasked(|payload|) && 2 * q < Rows(payload)
    ensures RowUnder(RunningRow(payload, 2 * q), PlainRow(payload, m, q), m)
  {
    hide Decrypted, Running, BodyByte, EvenRow, PlainUnder, MaskBytes, Inverted, Flip;
    forall j | 0 <= j < 32
      ensures PlainRow(payload, m, q)[j] == RunningRow(payload, 2 * q)[j] ^ Flip(ByteOf(m[j]))
    {
      var x := CIPHER_START + 2 * q * BLOCK + j;
      EvenRowAt(q, j);
      PlainUnderAt(payload, m, x);
      InvertedAt(m, j);
      RunningIdentity(payload, Inverted(MaskBytes(m)), x);
    }
  }

  lemma EvenRowAt(q: nat, j: nat)
    requires j < 32
    ensures var x := CIPHER_START + 2 * q * BLOCK + j; x % 32 == j && EvenRow(x)
  {
    assert CIPHER_START + 2 * q * BLOCK + j == 32 * (10 + 2 * q) + j;
    RowAndColumn(10 + 2 * q, j);
    RowAndColumn(2 * q, j);
  }

  lemma RowAndColumn(r: nat, j: nat)
    requires j < 32
    ensures (32 * r + j) / 32 == r && (32 * r + j) % 32 == j
  {}

  lemma PlainUnderAt(payload: seq<byte>, m: Mask, x: nat)
    requires IsMasked(|payload|) && CIPHER_START <= x < |payload|
    ensures |PlainUnder(payload, m)| == |payload|
    ensures PlainUnder(payload, m)[x] == BodyByte(payload, Inverted(MaskBytes(m)), x)
  {
    hide BodyByte, HeadMask, MaskBytes, Inverted;
  }

  lemma InvertedAt(m: Mask, j: nat)
    requires j < 32
    ensures Inverted(MaskBytes(m))[j] == Flip(ByteOf(m[j]))
  {
    hide ByteOf;
  }

  /** The rows `Stats` keeps of a pool, against the plaintext of the pool under any mask. */
  lemma {:induction false} PoolUnder(evens: seq<seq<Block>>, pool: seq<seq<byte>>, m: Mask)
    requires forall k :: 0 <= k < |pool| ==> IsMasked(|pool[k]|)
    requires |evens| == |pool| && forall k :: 0 <= k < |pool| ==> evens[k] == EvenRows(pool[k])
    ensures RowsUnder(Flatten(evens), PoolPlain(pool, m), m)
  {
    hide RowUnder, PlainRow, RunningRow;
    if pool != [] {
      var last := pool[|pool| - 1];
      PoolUnder(evens[..|evens| - 1], pool[..|pool| - 1], m);
      forall q | 0 <= q < |EvenRows(last)| ensures RowUnder(EvenRows(last)[q], PlainEvenRows(last, m)[q], m) {
        EvenRowUnder(last, m, q);
      }
    }
  }

  // The odd rows need no mask.

  /** Row `2 * q + 1` of a payload's plaintext body under a candidate mask. */
  ghost function PlainOddRow(payload: seq<byte>, m: Mask, q: nat): Block
    requires IsMasked(|payload|) && 2 * q + 1 < Rows(payload)
  {
    PlainUnder(payload, m)[0x140 + 32 * (2 * q + 1)..0x140 + 32 * (2 * q + 2)]
  }

  /** An odd row of the running XOR is plaintext, whatever the key. */
  lemma OddRowIsPlain(payload: seq<byte>, m: Mask, q: nat)
    requires IsMasked(|payload|) && 2 * q + 1 < Rows(payload)
    ensures RunningRow(payload, 2 * q + 1) == PlainOddRow(payload, m, q)
  {
    hide Decrypted, Running, BodyByte, EvenRow, PlainUnder, MaskBytes, Inverted;
    forall j | 0 <= j < 32 ensures RunningRow(payload, 2 * q + 1)[j] == PlainOddRow(payload, m, q)[j] {
      var x := CIPHER_START + (2 * q + 1) * BLOCK + j;
      OddRowAt(q, j);
      PlainUnderAt(payload, m, x);
      RunningIdentity(payload, Inverted(MaskBytes(m)), x);
    }
  }

  lemma OddRowAt(q: nat, j: nat)
    requires j < 32
    ensures !EvenRow(CIPHER_START + (2 * q + 1) * BLOCK + j)
  {
    RowAndColumn(2 * q + 1, j);
  }

  ghost function PlainOddRows(payload: seq<byte>, m: Mask): seq<Block>
    requires IsMasked(|payload|)
  {
    seq(Rows(payload) / 2, q requires 0 <= q < Rows(payload) / 2 => PlainOddRow(payload, m, q))
  }

  /** The odd rows of the plaintext bodies of a pool under a candidate mask. */
  ghost function PoolPlainOdd(pool: seq<seq<byte>>, m: Mask): seq<Block>
    requires forall k :: 0 <= k < |pool| ==> IsMasked(|pool[k]|)
  {
    if pool == [] then [] else PoolPlainOdd(pool[..|pool| - 1], m) + PlainOddRows(pool[|pool| - 1], m)
  }

  /** How many of the first `n` pairs of neighbouring columns hold `v, v`, over all rows. */
  ghost function PairsOf(rows: seq<Block>, v: byte, n: nat): nat
    requires n <= 31
  {
    if n == 0 then 0 else PairsOf(rows, v, n - 1) + PairCount(rows, n - 1, v, v)
  }

  lemma {:induction false} PairsOfMore(rows: seq<Block>, v: byte, n: nat)
    requires rows != [] && n <= 31
    ensures PairsOf(rows, v, n) == PairsOf(rows[..|rows| - 1], v, n) + RowDoubles(rows[|rows| - 1], v, n)
  {
    if n > 0 {
      PairsOfMore(rows, v, n - 1);
    }
  }

  lemma {:induction false} DoublesArePairs(rows: seq<Block>, v: byte)
    ensures Doubles(rows, v) == PairsOf(rows, v, 31)
  {
    hide RowDoubles, PairCount;
    if rows == [] {
      NoPairs(v, 31);
    } else {
      DoublesArePairs(rows[..|rows| - 1], v);
      PairsOfMore(rows, v, 31);
    }
  }

  lemma {:induction false} NoPairs(v: byte, n: nat)
    requires n <= 31
    ensures PairsOf([], v, n) == 0
  {
    if n > 0 {
      NoPairs(v, n - 1);
    }
  }

  /** The pairs that set the weights are the pairs 00,00 and FF,FF in the odd rows of the plaintext,
      under any mask at all. */
  lemma {:induction false} CountedPairsArePlain(pool: seq<seq<byte>>, m: Mask, v: byte)
    requires forall k :: 0 <= k < |pool| ==> IsMasked(|pool[k]|)
    ensures PoolDoubles(pool, v) == PairsOf(PoolPlainOdd(pool, m), v, 31)
  {
    hide Doubles, PairsOf, RunningRow, PlainOddRow;
    if pool == [] {
      NoPairs(v, 31);
    } else {
      var front, last := pool[..|pool| - 1], pool[|pool| - 1];
      CountedPairsArePlain(front, m, v);
      forall q | 0 <= q < Rows(last) / 2 ensures OddRows(last)[q] == PlainOddRows(last, m)[q] {
        OddRowIsPlain(last, m, q);
      }
      assert OddRows(last) == PlainOddRows(last, m);
      DoublesArePairs(OddRows(last), v);
      DoublesArePairs(PoolPlainOdd(front, m), v);
      DoublesArePairs(PoolPlainOdd(pool, m), v);
      DoublesConcat(PoolPlainOdd(front, m), PlainOddRows(last, m), v);
    }
  }

  lemma ByteUnder(r: byte, v: byte, p: byte)
    requires p == r ^ Flip(v)
    ensures (r == v <==> p == 0xFF) && (r == Flip(v) <==> p == 0)
  {}

  lemma RowsMatch(running: seq<Block>, plain: seq<Block>, m: Mask, j: nat)
    requires j < 32 && RowsUnder(running, plain, m)
    ensures Matching(running, plain, j, ByteOf(m[j]), 0xFF)
    ensures Matching(running, plain, j, Flip(ByteOf(m[j])), 0x00)
  {
    forall r | 0 <= r < |running|
      ensures (running[r][j] == ByteOf(m[j]) <==> plain[r][j] == 0xFF)
           && (running[r][j] == Flip(ByteOf(m[j])) <==> plain[r][j] == 0)
    {
      assert RowUnder(running[r], plain[r], m);
      ByteUnder(running[r][j], ByteOf(m[j]), plain[r][j]);
    }
  }

  /** Column `j` holds `v` in the same rows in which the other table's holds `w`. */
  ghost predicate Matching(rows: seq<Block>, others: seq<Block>, j: nat, v: byte, w: byte)
    requires j < 32
  {
    |rows| == |others| && forall r :: 0 <= r < |rows| ==> (rows[r][j] == v <==> others[r][j] == w)
  }

  lemma {:induction false} MatchingColumns(rows: seq<Block>, others: seq<Block>, j: nat, v: byte, w: byte)
    requires j < 32 && Matching(rows, others, j, v, w)
    ensures ColumnCount(rows, j, v) == ColumnCount(others, j, w)
  {
    if rows != [] {
      MatchingColumns(rows[..|rows| - 1], others[..|others| - 1], j, v, w);
    }
  }

  lemma {:induction false} MatchingPairs(rows: seq<Block>, others: seq<Block>, j: nat, v: byte, w: byte, v': byte,
                        w': byte)
    requires j < 31 && Matching(rows, others, j, v, w) && Matching(rows, others, j + 1, v', w')
    ensures PairCount(rows, j, v, v') == PairCount(others, j, w, w')
  {
    if rows != [] {
      MatchingPairs(rows[..|rows| - 1], others[..|others| - 1], j, v, w, v', w');
    }
  }

  /** `unigram[j]` at a candidate's entry counts the plaintext bytes 00 and FF at `j`. */
  lemma UnigramCountsPlaintext(running: seq<Block>, plain: seq<Block>, m: Mask, j: nat)
    requires j < 32 && RowsUnder(running, plain, m)
    ensures Unigrams(running)[j][m[j]] == ColumnCount(plain, j, 0x00) + ColumnCount(plain, j, 0xFF)
  {
    RowsMatch(running, plain, m, j);
    MatchingColumns(running, plain, j, ByteOf(m[j]), 0xFF);
    MatchingColumns(running, plain, j, Flip(ByteOf(m[j])), 0x00);
  }

  /** `bigram[j]` at a candidate's pair is the weighted count of FF,FF and 00,00 in the plaintext. */
  lemma BigramCountsPlaintext(running: seq<Block>, plain: seq<Block>, m: Mask, j: nat, zero: int, ff: int)
    requires j < 31 && RowsUnder(running, plain, m)
    ensures Bigrams(running, zero, ff)[j][PairIndex(m[j], m[j + 1])]
         == ff * PairCount(plain, j, 0xFF, 0xFF) + zero * PairCount(plain, j, 0x00, 0x00)
  {
    hide *;
    WeightedIs(ff, PairCount(plain, j, 0xFF, 0xFF), zero, PairCount(plain, j, 0x00, 0x00));
    RowsMatch(running, plain, m, j);
    RowsMatch(running, plain, m, j + 1);
    var left, right := ByteOf(m[j]), ByteOf(m[j + 1]);
    MatchingPairs(running, plain, j, left, 0xFF, right, 0xFF);
    MatchingPairs(running, plain, j, Flip(left), 0x00, Flip(right), 0x00);
    BigramAtPair(running, zero, ff, j, m[j], m[j + 1]);
  }

  lemma WeightedIs(ffWeight: int, ffs: int, zeroWeight: int, zeros: int)
    ensures Weighted(ffWeight, ffs, zeroWeight, zeros) == ffWeight * ffs + zeroWeight * zeros
  {}

  lemma BigramAtPair(rows: seq<Block>, zero: int, ff: int, j: nat, left: Entry, right: Entry)
    requires j < 31
    ensures Bigrams(rows, zero, ff)[j][PairIndex(left, right)]
         == Weighted(ff, PairCount(rows, j, ByteOf(left), ByteOf(right)),
                     zero, PairCount(rows, j, Flip(ByteOf(left)), Flip(ByteOf(right))))
  {
    hide PairCount, ByteOf, Flip, Weighted;
    var k := PairIndex(left, right);
    assert k / 256 == left && k % 256 == right;
    assert Bigrams(rows, zero, ff)[j][k] == BigramEntry(rows, zero, ff, j, k);
  }

  // ----- The score of a candidate is evidence in its plaintext

  /** The evidence in plaintext rows: every byte 00 or FF, and every adjacent pair of one of them
      by its weight. */
  ghost function Evidence(plain: seq<Block>, zero: int, ff: int): int {
    Sum(seq(32, j requires 0 <= j < 32 => ColumnCount(plain, j, 0x00) + ColumnCount(plain, j, 0xFF)))
    + Sum(seq(31, j requires 0 <= j < 31 => PairEvidence(plain, j, zero, ff)))
  }

  /** The weighted pairs of one column and the next. */
  ghost function PairEvidence(plain: seq<Block>, j: nat, zero: int, ff: int): int
    requires j < 31
  {
    ff * PairCount(plain, j, 0xFF, 0xFF) + zero * PairCount(plain, j, 0x00, 0x00)
  }

  /** The score of any candidate is the evidence in what `decrypt_video` makes of the pool with it. */
  lemma ScoreIsEvidence(evens: seq<seq<Block>>, pool: seq<seq<byte>>, m: Mask, zero: int, ff: int)
    requires forall k :: 0 <= k < |pool| ==> IsMasked(|pool[k]|)
    requires |evens| == |pool| && forall k :: 0 <= k < |pool| ==> evens[k] == EvenRows(pool[k])
    ensures Score(Unigrams(Flatten(evens)), Bigrams(Flatten(evens), zero, ff), m)
         == Evidence(PoolPlain(pool, m), zero, ff)
  {
    hide RowsUnder, Flatten, Unigrams, Bigrams, Sum, ColumnCount, PairCount, PoolPlain, PairEvidence;
    var running, plain := Flatten(evens), PoolPlain(pool, m);
    PoolUnder(evens, pool, m);
    var u, b := Unigrams(running), Bigrams(running, zero, ff);
    forall j | 0 <= j < 32 ensures u[j][m[j]] == ColumnCount(plain, j, 0x00) + ColumnCount(plain, j, 0xFF) {
      UnigramCountsPlaintext(running, plain, m, j);
    }
    forall j | 0 <= j < 31 ensures b[j][PairIndex(m[j], m[j + 1])] == PairEvidence(plain, j, zero, ff) {
      PairEvidenceAt(running, plain, m, j, zero, ff);
    }
    assert EntryScores(u, m) == seq(32, j requires 0 <= j < 32 => ColumnCount(plain, j, 0x00) + ColumnCount(plain,
        j, 0xFF));
    assert PairScores(b, m) == seq(31, j requires 0 <= j < 31 => PairEvidence(plain, j, zero, ff));
  }

  lemma PairEvidenceAt(running: seq<Block>, plain: seq<Block>, m: Mask, j: nat, zero: int, ff: int)
    requires j < 31 && RowsUnder(running, plain, m)
    ensures Bigrams(running, zero, ff)[j][PairIndex(m[j], m[j + 1])] == PairEvidence(plain, j, zero, ff)
  {
    hide RowsUnder, Bigrams, PairCount, PairIndex;
    BigramCountsPlaintext(running, plain, m, j, zero, ff);
  }

  lemma RoundsToNearest(x: real)
    ensures -1.0 <= 2.0 * (x - Round(x) as real) <= 1.0
    ensures x - Round(x) as real == 0.5 || Round(x) as real - x == 0.5 ==> Round(x) % 2 == 0
  {}

  /** The weight of 00,00 for a share of `z` such pairs to `g` of the other kind is the integer
      nearest to that share of 25, the even one of two. */
  ghost predicate NearestShare(zero: int, z: nat, g: nat) {
    var twice := 2 * (25 * z - zero * (z + g));
    -(z + g) <= twice <= z + g && (twice == z + g || twice == -(z + g) ==> zero % 2 == 0)
  }

  /** The weights in integers. Up to 100 pairs they are fixed. Beyond that they share out 25: 12 to 13
      when there are no more pairs 00,00 than FF,FF, 21 to 4 when there are five times as many or
      more, and in between as the pairs are shared. */
  lemma WeightsShareOut(zeroPairs: nat, ffPairs: nat)
    ensures var (zero, ff), g := Weights(zeroPairs, ffPairs), if ffPairs == 0 then 1 else ffPairs;
      if zeroPairs + ffPairs < 100 then (zero, ff) == (10, 4)
      else
        && ff == 25 - zero
        && (zeroPairs <= g ==> zero == 12)
        && (zeroPairs >= 5 * g ==> zero == 21)
        && (g < zeroPairs < 5 * g ==> NearestShare(zero, zeroPairs, g))
  {
    hide NearestShare;
    if zeroPairs + ffPairs >= 100 {
      var g := if ffPairs == 0 then 1 else ffPairs;
      var ratio := zeroPairs as real / g as real;
      RatioOf(zeroPairs, g, ratio);
      var clamped := if ratio < 1.0 then 1.0 else if ratio > 5.0 then 5.0 else ratio;
      var part := 25.0 * clamped / (1.0 + clamped);
      if zeroPairs <= g {
        assert clamped == 1.0;
      } else if zeroPairs >= 5 * g {
        assert clamped == 5.0;
      } else {
        SharePart(zeroPairs, g, clamped, part);
        ShareRounded(zeroPairs, g, part);
      }
    }
  }

  lemma RatioOf(z: nat, g: nat, ratio: real)
    requires g > 0 && ratio == z as real / g as real
    ensures ratio * g as real == z as real
    ensures z <= g <==> ratio <= 1.0
    ensures z >= 5 * g <==> ratio >= 5.0
  {
    RatioBound(ratio, g as real, z as real, 1.0);
    RatioBound(ratio, g as real, z as real, 5.0);
    assert (5 * g) as real == 5.0 * g as real;
  }

  lemma RatioBound(ratio: real, r: real, z: real, k: real)
    requires r > 0.0 && ratio * r == z
    ensures z <= k * r <==> ratio <= k
    ensures z >= k * r <==> ratio >= k
  {
    Distributes(ratio, k, r);
    SignOf(ratio - k, r);
  }

  lemma Distributes(a: real, b: real, c: real)
    ensures (a - b) * c == a * c - b * c
  {}

  lemma ProductAsReal(a: int, b: int)
    ensures (a * b) as real == a as real * b as real
  {}

  lemma SignOf(x: real, r: real)
    requires r > 0.0
    ensures x > 0.0 <==> x * r > 0.0
    ensures x < 0.0 <==> x * r < 0.0
  {}

  lemma SharePart(z: nat, g: nat, ratio: real, part: real)
    requires g > 0 && ratio > 0.0 && ratio * g as real == z as real && part == 25.0 * ratio / (1.0 + ratio)
    ensures part * (z + g) as real == 25.0 * z as real
  {
    var r := g as real;
    assert part * (1.0 + ratio) == 25.0 * ratio;
    assert (z + g) as real == (1.0 + ratio) * r;
    Associates(part, 1.0 + ratio, r);
    Associates(25.0, ratio, r);
  }

  lemma Associates(a: real, b: real, c: real)
    ensures a * (b * c) == (a * b) * c
  {}

  lemma ShareRounded(z: nat, g: nat, part: real)
    requires g > 0 && part * (z + g) as real == 25.0 * z as real
    ensures NearestShare(Round(part), z, g)
  {
    hide Round;
    RoundsToNearest(part);
    var zero, n := Round(part), z + g;
    ProductAsReal(zero, n);
    Distributes(part, zero as real, n as real);
    Within(part - zero as real, n as real, (25 * z - zero * n) as real);
  }

  lemma Within(off: real, n: real, product: real)
    requires -1.0 <= 2.0 * off <= 1.0 && n > 0.0 && off * n == product
    ensures -n <= 2.0 * product <= n
    ensures 2.0 * product == n ==> off == 0.5
    ensures 2.0 * product == -n ==> off == -0.5
  {
    Distributes(off, 0.5, n);
    Distributes(off, -0.5, n);
    SignOf(off - 0.5, n);
    SignOf(off + 0.5, n);
  }

  /** Both pair weights are positive, whatever the odd rows hold. */
  lemma WeightsPositive(zeroPairs: nat, ffPairs: nat)
    ensures var (zero, ff) := Weights(zeroPairs, ffPairs);
      if zeroPairs + ffPairs < BIGRAM_MIN_HITS then (zero, ff) == (10, 4)
      else zero + ff == BIGRAM_WEIGHT && 12 <= zero <= 21
  {
    if zeroPairs + ffPairs >= BIGRAM_MIN_HITS {
      var ratio := zeroPairs as real / (if ffPairs > 1 then ffPairs else 1) as real;
      var clamped := if ratio < 1.0 then 1.0 else if ratio > 5.0 then 5.0 else ratio;
      var part := BIGRAM_WEIGHT as real * clamped / (1.0 + clamped);
      QuotientBetween(part, 1.0 + clamped, 12.5, 20.9);
    }
  }

  lemma QuotientBetween(x: real, d: real, low: real, high: real)
    requires d > 0.0 && low * d <= x * d <= high * d
    ensures low <= x <= high
  {
    assert (x - low) * d >= 0.0 && (high - x) * d >= 0.0;
  }

  /** `evaluate`: a key is accepted only when both halves of the sample solve to it. Then, in
      either half, no key that escapes crowding leaves more evidence in the plaintext. And the key
      that is decisive in both halves is accepted. */
  method Evaluate(left: Stats, right: Stats) returns (mask: Option<Mask>)
    requires left.Valid() && right.Valid() && (right.blocks > 0 ==> left.pool != [])
    ensures mask.Some? ==> mask.value == MaskOf(SeedsOf(KeyFromMask(mask.value)))
    ensures mask.Some? ==> BestEvidence(left, mask.value) && BestEvidence(right, mask.value)
    ensures right.pool == [] ==> mask.None?
    ensures forall s :: right.blocks > 0 && Decisive(left, s) && Decisive(right, s) ==> mask == Some(MaskOf(s))
  {
    hide Uncrowded, Evidence, MaskOf, PoolPlain, KeyFromMask, SeedsOf, Unigrams, Bigrams, Flatten, Weights;
    if right.blocks == 0 {
      return None;
    }
    var first := SolveStats(left);
    var second := SolveStats(right);
    mask := if first != second then None else Some(first);
  }

  /** The seeds escape crowding and leave strictly more evidence in the plaintext than any others. */
  ghost predicate Decisive(stats: Stats, s: Seeds)
    requires stats.Valid()
    reads stats
  {
    var (zero, ff) := Weights(stats.zeroPairs, stats.ffPairs);
    var even := Flatten(stats.evens);
    && Uncrowded(Unigrams(even), Bigrams(even, zero, ff), s, 300, 50)
    && forall t :: MaskOf(t) != MaskOf(s) ==>
         Evidence(PoolPlain(stats.pool, MaskOf(t)), zero, ff) < Evidence(PoolPlain(stats.pool, MaskOf(s)), zero, ff)
  }

  ghost predicate BestEvidence(stats: Stats, mask: Mask)
    requires stats.Valid()
    reads stats
  {
    var (zero, ff) := Weights(stats.zeroPairs, stats.ffPairs);
    var even := Flatten(stats.evens);
    forall s :: Uncrowded(Unigrams(even), Bigrams(even, zero, ff), s, 300, 50) ==>
      Evidence(PoolPlain(stats.pool, MaskOf(s)), zero, ff) <= Evidence(PoolPlain(stats.pool, mask), zero, ff)
  }

  method SolveStats(stats: Stats) returns (mask: Mask)
    requires stats.Valid() && stats.pool != []
    ensures mask == MaskOf(SeedsOf(KeyFromMask(mask))) && BestEvidence(stats, mask)
  {
    hide Uncrowded, Score, Evidence, MaskOf, PoolPlain, KeyFromMask, Unigrams, Bigrams, Flatten;
    var u, b := stats.Tables();
    mask := Solve(u, b, WIDE_BEAM, BEAM);
    var (zero, ff) := Weights(stats.zeroPairs, stats.ffPairs);
    forall s | Uncrowded(u, b, s, WIDE_BEAM, BEAM)
      ensures Evidence(PoolPlain(stats.pool, MaskOf(s)), zero, ff) <= Evidence(PoolPlain(stats.pool, mask), zero, ff)
    {
      ScoreIsEvidence(stats.evens, stats.pool, MaskOf(s), zero, ff);
      ScoreIsEvidence(stats.evens, stats.pool, mask, zero, ff);
    }
  }
}
