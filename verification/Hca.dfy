/** The audio file of stages/hca.py once its header is read: decryption and saving. */
module Hca {
  import opened Bytes
  import opened Crc16
  import opened CipherTable

  /** A checksum as `struct.pack(">H")` writes it. */
  function ChecksumBytes(c: crc): seq<byte> {
    [HighByte(c), LowByteOf(c)]
  }

  /** A string whose last two bytes are replaced by the checksum of the rest. */
  function Sealed(s: seq<byte>): (sealed: seq<byte>)
    requires |s| >= 2
    ensures |sealed| == |s|
  {
    s[..|s| - 2] + ChecksumBytes(Crc(s[..|s| - 2]))
  }

  /** A sealed string has checksum zero, and only its last two bytes are new. */
  lemma SealedHasNoResidue(s: seq<byte>)
    requires |s| >= 2
    ensures Crc(Sealed(s)) == 0 && Sealed(s)[..|s| - 2] == s[..|s| - 2]
  {
    hide Crc;
    ResidueIsZero(s[..|s| - 2]);
  }

  /** The blocks of the data, each sealed, and what lies beyond the last whole block. */
  function SealedBlocks(data: seq<byte>, blockSize: nat): (sealed: seq<byte>)
    requires blockSize >= 2
    ensures |sealed| == |data|
    decreases |data|
  {
    if |data| < blockSize then data
    else Sealed(data[..blockSize]) + SealedBlocks(data[blockSize..], blockSize)
  }

  /** Where block `b` begins. */
  function BlockAt(b: nat, blockSize: nat): nat {
    b * blockSize
  }

  lemma BlocksInOrder(b: nat, c: nat, blockSize: nat)
    requires b < c
    ensures BlockAt(b, blockSize) + blockSize <= BlockAt(c, blockSize)
    ensures BlockAt(b, blockSize) + blockSize == BlockAt(b + 1, blockSize)
  {
    assert c * blockSize == b * blockSize + blockSize + (c - b - 1) * blockSize;
    assert (c - b - 1) * blockSize >= 0;
  }

  function BlockCount(size: nat, blockSize: nat): nat
    requires blockSize > 0
  {
    size / blockSize
  }

  lemma BlocksFit(size: nat, blockSize: nat)
    requires blockSize > 0
    ensures BlockAt(BlockCount(size, blockSize), blockSize) <= size
    ensures size < BlockAt(BlockCount(size, blockSize), blockSize) + blockSize
  {
    assert size == blockSize * (size / blockSize) + size % blockSize;
  }

  /** Every whole block of the saved data has checksum zero and keeps its other bytes. */
  lemma {:induction false} SavedBlocksHaveNoResidue(data: seq<byte>, blockSize: nat, b: nat)
    requires blockSize >= 2 && BlockAt(b + 1, blockSize) <= |data|
    ensures BlockAt(b, blockSize) + blockSize == BlockAt(b + 1, blockSize)
    ensures var block := data[BlockAt(b, blockSize)..BlockAt(b + 1, blockSize)];
      && SealedBlocks(data, blockSize)[BlockAt(b, blockSize)..BlockAt(b + 1, blockSize)] == Sealed(block)
      && Crc(Sealed(block)) == 0
    decreases b
  {
    hide Crc, Sealed, BlockAt;
    BlocksInOrder(b, b + 1, blockSize);
    var first, rest := data[..blockSize], data[blockSize..];
    SealedHasNoResidue(data[BlockAt(b, blockSize)..BlockAt(b + 1, blockSize)]);
    BlockAtLeast(b, blockSize);
    if b > 0 {
      BlocksInOrder(b - 1, b, blockSize);
      BlockAtLeast(b - 1, blockSize);
      SavedBlocksHaveNoResidue(rest, blockSize, b - 1);
      var from, to := BlockAt(b, blockSize), BlockAt(b + 1, blockSize);
      var sealed := SealedBlocks(data, blockSize);
      assert sealed[blockSize..] == SealedBlocks(rest, blockSize);
      hide SealedBlocks;
      SliceFurtherOn(data, blockSize, from, to);
      SliceFurtherOn(sealed, blockSize, from, to);
    }
  }

  lemma SliceFurtherOn(s: seq<byte>, n: nat, from: nat, to: nat)
    requires n <= from <= to <= |s|
    ensures s[from..to] == s[n..][from - n..to - n]
  {}

  lemma BlockAtLeast(b: nat, blockSize: nat)
    ensures BlockAt(b + 1, blockSize) >= blockSize && BlockAt(0, blockSize) == 0
  {
    assert (b + 1) * blockSize == blockSize + b * blockSize;
  }

  class Hca {
    const table: seq<crc>
    const key: nat
    const blockSize: nat
    var header: array<byte>
    var data: array<byte>
    var cipherType: nat
    var cipherOffset: nat

    /** What reading the header leaves behind. */
    ghost predicate Valid()
      reads this
    {
      && IsTable(table)
      && header.Length >= 2 && header != data && blockSize > 0
      && (cipherType != 0 ==> cipherOffset + 6 <= header.Length)
    }

    constructor (key: nat, header: array<byte>, data: array<byte>, blockSize: nat, cipherType: nat, cipherOffset: nat)
      requires header.Length >= 2 && header != data && blockSize > 0
      requires cipherType != 0 ==> cipherOffset + 6 <= header.Length
      ensures Valid() && this.header == header && this.data == data && this.key == key && this.blockSize == blockSize
      ensures this.cipherType == cipherType && this.cipherOffset == cipherOffset
    {
      var made := Crc16Table();
      table := made;
      this.key, this.header, this.data := key, header, data;
      this.blockSize, this.cipherType, this.cipherOffset := blockSize, cipherType, cipherOffset;
    }

    /** `update_header_crc`: the header ends with its checksum, and so has residue zero. */
    method UpdateHeaderCrc()
      requires Valid()
      modifies header
      ensures header[..] == Sealed(old(header[..])) && Crc(header[..]) == 0
    {
      hide Crc, IsTable;
      var n := header.Length;
      var c := Checksum(table, header[..n - 2]);
      SealedHasNoResidue(header[..]);
      header[n - 2], header[n - 1] := HighByte(c), LowByteOf(c);
      assert header[..] == Sealed(old(header[..]));
    }

    /** `self.data.translate(table)`: a new array, as in the source. */
    method Translate(cipherTable: seq<nat>) returns (translated: array<byte>)
      requires cipherTable == CipherTable.CipherTable(key)
      ensures fresh(translated) && translated[..] == Translated(data[..], key)
    {
      hide CipherTable.CipherTable, TranslatedByte, ByteOf;
      translated := new byte[data.Length];
      for i := 0 to data.Length
        invariant forall k :: 0 <= k < i ==> translated[k] == TranslatedByte(key, data[k])
      {
        TableIsTranslation(cipherTable, key, data[i]);
        translated[i] := ByteOf(cipherTable[data[i] as int]);
      }
    }

    /** `struct.pack_into(">H", header, offset, 0)`. */
    method ClearType(offset: nat)
      requires offset + 2 <= header.Length
      modifies header
      ensures header[..] == old(header[..])[offset := 0][offset + 1 := 0]
    {
      header[offset], header[offset + 1] := 0, 0;
    }

    /** `decrypt`: the data goes through the key's table once, and the header says so. */
    method Decrypt()
      requires Valid()
      modifies this`data, this`cipherType, header
      ensures Valid() && cipherType == 0 && header == old(header)
      ensures old(cipherType) == 0 ==> data == old(data) && header[..] == old(header[..])
      ensures old(cipherType) != 0 ==>
        && fresh(data) && data[..] == Translated(old(data[..]), key)
        && header[..] == Sealed(old(header[..])[cipherOffset + 4 := 0][cipherOffset + 5 := 0])
        && Crc(header[..]) == 0
    {
      hide Crc, Sealed, Translated, IsTable, CipherTable.CipherTable;
      if cipherType == 0 {
        return;
      }
      var cipherTable := BuildCipherTable(key);
      var translated := Translate(cipherTable);
      data := translated;
      cipherType := 0;
      ClearType(cipherOffset + 4);
      UpdateHeaderCrc();
    }

    /** `save`: the checksums of all blocks are computed together, and what is written is the
        header and the sealed blocks. */
    method Save() returns (file: seq<byte>)
      requires Valid() && blockSize >= 2
      modifies data
      ensures data[..] == SealedBlocks(old(data[..]), blockSize)
      ensures file == header[..] + data[..]
    {
      hide Crc, Sealed, BlockAt, IsTable, SealedAt;
      var count := BlockCount(data.Length, blockSize);
      BlocksFit(data.Length, blockSize);
      var crcs := BlockChecksums(count);
      ghost var before, sums := data[..], crcs[..];
      BlockAtLeast(0, blockSize);
      for b := 0 to count
        invariant data.Length == |before| && BlockAt(b, blockSize) <= |before| && crcs[..] == sums
        invariant forall k :: BlockAt(b, blockSize) <= k < |before| ==> data[k] == before[k]
        invariant forall c :: 0 <= c < b ==> SealedAt(before, data[..], c, blockSize)
      {
        ghost var prior := data[..];
        BlockWithin(b, count, blockSize);
        BlocksInOrder(b, b + 1, blockSize);
        assert crcs[b] == sums[b];
        SealBlock(b, crcs[b], before);
        forall c | 0 <= c < b ensures SealedAt(before, data[..], c, blockSize) {
          BlocksInOrder(c, b, blockSize);
          SealedStays(before, prior, data[..], c, blockSize);
        }
      }
      SealedEverywhere(before, data[..], blockSize);
      file := header[..] + data[..];
    }

    /** Byte 0 of every block goes into its checksum, then byte 1, and so on to the last two. */
    method BlockChecksums(count: nat) returns (crcs: array<crc>)
      requires Valid() && blockSize >= 2 && BlockAt(count, blockSize) <= data.Length
      ensures fresh(crcs) && crcs.Length == count
      ensures forall b :: 0 <= b < count ==>
        BodyIn(b, data.Length, blockSize) && crcs[b] == Crc(Body(data[..], b, blockSize))
    {
      hide Crc, BlockAt, IsTable, Front, BodyIn;
      BlocksAreIn(count, data.Length, blockSize);
      crcs := new crc[count](_ => 0);
      forall b | 0 <= b < count ensures Crc(Front(data[..], b, 0, blockSize)) == 0 {
        NothingInFront(data[..], b, blockSize);
      }
      for column := 0 to blockSize - 2
        invariant forall b :: 0 <= b < count ==> crcs[b] == Crc(Front(data[..], b, column, blockSize))
      {
        TakeColumn(crcs, column);
      }
    }

    /** One column of all blocks. */
    method TakeColumn(crcs: array<crc>, column: nat)
      requires Valid() && column < blockSize
      requires forall b :: 0 <= b < crcs.Length ==>
        BodyIn(b, data.Length, blockSize) && crcs[b] == Crc(Front(data[..], b, column, blockSize))
      modifies crcs
      ensures forall b :: 0 <= b < crcs.Length ==> crcs[b] == Crc(Front(data[..], b, column + 1, blockSize))
    {
      hide Crc, BlockAt, IsTable, Update, Front, BodyIn;
      for b := 0 to crcs.Length
        invariant forall c :: b <= c < crcs.Length ==> crcs[c] == Crc(Front(data[..], c, column, blockSize))
        invariant forall c :: 0 <= c < b ==> crcs[c] == Crc(Front(data[..], c, column + 1, blockSize))
      {
        FrontGrows(data[..], b, column, blockSize);
        crcs[b] := UpdateBy(crcs[b], data[b * blockSize + column]);
      }
    }

    /** `(crc << 8) ^ table[(crc >> 8) ^ column]`, for one block. */
    method UpdateBy(c: crc, b: byte) returns (next: crc)
      requires IsTable(table)
      ensures next == Update(c, b)
    {
      hide TableEntry, IsTable;
      var index := XorByte(HighByte(c), b);
      Crc16.TableAt(table, index);
      TableLength(table);
      next := Xor(ShiftedByte(c), table[index as int]);
    }

    method SealBlock(b: nat, c: crc, ghost before: seq<byte>)
      requires Valid() && blockSize >= 2 && |before| == data.Length && BodyIn(b, data.Length, blockSize)
      requires forall k :: BlockAt(b, blockSize) <= k < |before| ==> data[k] == before[k]
      requires c == Crc(Body(before, b, blockSize))
      modifies data
      ensures SealedAt(before, data[..], b, blockSize)
      ensures forall k :: 0 <= k < |before| && !(BlockAt(b, blockSize) <= k < BlockAt(b, blockSize) + blockSize) ==>
        data[k] == old(data[k])
    {
      hide Crc, BlockAt;
      var end := b * blockSize + blockSize;
      BlockAtIs(b, blockSize);
      data[end - 2], data[end - 1] := HighByte(c), LowByteOf(c);
      var from := BlockAt(b, blockSize);
      assert before[from..end][..blockSize - 2] == Body(before, b, blockSize);
      assert data[from..end] == Sealed(before[from..end]);
    }
  }

  lemma BlockAtIs(b: nat, blockSize: nat)
    ensures BlockAt(b, blockSize) == b * blockSize
  {}

  lemma BlockWithin(b: nat, count: nat, blockSize: nat)
    requires b < count
    ensures BlockAt(b, blockSize) + blockSize <= BlockAt(count, blockSize)
  {
    BlocksInOrder(b, count, blockSize);
  }

  predicate BodyIn(b: nat, size: nat, blockSize: nat) {
    BlockAt(b, blockSize) + blockSize <= size
  }

  /** The first `n` bytes of block `b`. */
  ghost function Front(data: seq<byte>, b: nat, n: nat, blockSize: nat): seq<byte>
    requires n <= blockSize && BodyIn(b, |data|, blockSize)
  {
    data[BlockAt(b, blockSize)..BlockAt(b, blockSize) + n]
  }

  lemma BlocksAreIn(count: nat, size: nat, blockSize: nat)
    requires BlockAt(count, blockSize) <= size
    ensures forall b: nat :: b < count ==> BodyIn(b, size, blockSize)
  {
    hide BlockAt;
    forall b: nat | b < count ensures BodyIn(b, size, blockSize) {
      BlockWithin(b, count, blockSize);
    }
  }

  lemma NothingInFront(data: seq<byte>, b: nat, blockSize: nat)
    requires BodyIn(b, |data|, blockSize)
    ensures Crc(Front(data, b, 0, blockSize)) == 0
  {
    hide Update;
    CrcOfOneMore([], 0);
    assert Front(data, b, 0, blockSize) == [];
  }

  /** One more byte of a block's front is one more step of its checksum. */
  lemma FrontGrows(data: seq<byte>, b: nat, n: nat, blockSize: nat)
    requires n < blockSize && BodyIn(b, |data|, blockSize)
    ensures 0 <= b * blockSize + n < |data|
    ensures Crc(Front(data, b, n + 1, blockSize)) == Update(Crc(Front(data, b, n, blockSize)), data[b * blockSize + n])
  {
    hide Crc, Update, BlockAt;
    BlockAtIs(b, blockSize);
    CrcOfOneMore(Front(data, b, n, blockSize), data[b * blockSize + n]);
    assert Front(data, b, n + 1, blockSize) == Front(data, b, n, blockSize) + [data[b * blockSize + n]];
  }

  /** Block `b` without its last two bytes. */
  ghost function Body(data: seq<byte>, b: nat, blockSize: nat): seq<byte>
    requires blockSize >= 2 && BodyIn(b, |data|, blockSize)
  {
    Front(data, b, blockSize - 2, blockSize)
  }

  /** Block `c` of `after` is block `c` of `before`, sealed. */
  ghost predicate SealedAt(before: seq<byte>, after: seq<byte>, c: nat, blockSize: nat)
    requires blockSize >= 2 && |before| == |after|
  {
    && BodyIn(c, |before|, blockSize)
    && var from := BlockAt(c, blockSize);
       after[from..from + blockSize] == Sealed(before[from..from + blockSize])
  }

  lemma SealedStays(before: seq<byte>, prior: seq<byte>, after: seq<byte>, c: nat, blockSize: nat)
    requires blockSize >= 2 && |before| == |prior| == |after| && SealedAt(before, prior, c, blockSize)
    requires forall k :: 0 <= k < BlockAt(c, blockSize) + blockSize ==> after[k] == prior[k]
    ensures SealedAt(before, after, c, blockSize)
  {
    hide Sealed;
    var from := BlockAt(c, blockSize);
    assert after[from..from + blockSize] == prior[from..from + blockSize];
  }

  lemma SealedOneOn(before: seq<byte>, after: seq<byte>, c: nat, blockSize: nat)
    requires blockSize >= 2 && |before| == |after| && SealedAt(before, after, c + 1, blockSize)
    ensures |before| >= blockSize && SealedAt(before[blockSize..], after[blockSize..], c, blockSize)
  {
    hide Sealed, BlockAt;
    BlocksInOrder(c, c + 1, blockSize);
    var from := BlockAt(c, blockSize);
    assert after[blockSize..][from..from + blockSize] == after[from + blockSize..from + 2 * blockSize];
    assert before[blockSize..][from..from + blockSize] == before[from + blockSize..from + 2 * blockSize];
  }

  /** Sealing every whole block and nothing else is sealing the blocks. */
  lemma {:induction false} SealedEverywhere(before: seq<byte>, after: seq<byte>, blockSize: nat)
    requires blockSize >= 2 && |before| == |after|
    requires forall c :: 0 <= c < BlockCount(|before|, blockSize) ==> SealedAt(before, after, c, blockSize)
    requires forall k :: BlockAt(BlockCount(|before|, blockSize), blockSize) <= k < |before| ==> after[k] == before[k]
    ensures after == SealedBlocks(before, blockSize)
    decreases |before|
  {
    hide Sealed, SealedAt, BlockAt, BlockCount;
    CountOneOn(|before|, blockSize);
    if |before| >= blockSize {
      var rest, rest' := before[blockSize..], after[blockSize..];
      var count := BlockCount(|rest|, blockSize);
      forall c | 0 <= c < count ensures SealedAt(rest, rest', c, blockSize) {
        SealedOneOn(before, after, c, blockSize);
      }
      BlocksInOrder(count, count + 1, blockSize);
      SealedEverywhere(rest, rest', blockSize);
      FirstSealed(before, after, blockSize);
      assert after == after[..blockSize] + rest';
    }
  }

  lemma CountOneOn(size: nat, blockSize: nat)
    requires blockSize >= 2
    ensures size < blockSize ==> BlockAt(BlockCount(size, blockSize), blockSize) == 0
    ensures size >= blockSize ==> BlockCount(size, blockSize) == BlockCount(size - blockSize, blockSize) + 1
  {
    if size >= blockSize {
      DivisionUnique(size - blockSize, blockSize, size / blockSize - 1, size % blockSize);
    }
  }

  lemma FirstSealed(before: seq<byte>, after: seq<byte>, blockSize: nat)
    requires blockSize >= 2 && |before| == |after| && SealedAt(before, after, 0, blockSize)
    ensures |before| >= blockSize && after[..blockSize] == Sealed(before[..blockSize])
  {
    hide Sealed;
  }
}
