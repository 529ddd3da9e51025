/** The chunk walk of stages/usm.py over a file held as bytes. */
module UsmChunks {
  import opened Bytes

  // The least data offset with which a payload does not overlap its header: the header's size less
  // the 8 bytes before the point that data offsets count from.
  const HEADER_SIZE := 32
  const MIN_DATA_OFFSET := 0x18

  datatype Header = Header(signature: seq<byte>, dataSize: nat, dataOffset: nat, paddingSize: nat,
                           channelNo: nat, dataType: nat, frameTime: nat)
  {
    function Size(): nat {
      8 + dataSize
    }

    predicate IsData() {
      dataType == 0
    }

    function PayloadSize(): int {
      dataSize - dataOffset - paddingSize
    }

    /** The walk takes a header whose payload size is not negative and whose payload does not start
        inside the header. */
    predicate Sound() {
      PayloadSize() >= 0 && dataOffset >= MIN_DATA_OFFSET
    }
  }

  /** Where the header's fields lie, numbers highest byte first. */
  lemma HeaderLayout(raw: seq<byte>)
    requires |raw| >= 32
    ensures var h := HeaderOf(raw);
      && h.signature == raw[..4]
      && h.dataSize == 0x100_0000 * raw[4] as int + 0x1_0000 * raw[5] as int + 256 * raw[6] as int + raw[7] as int
      && h.dataOffset == raw[9] as int && h.paddingSize == 256 * raw[10] as int + raw[11] as int
      && h.channelNo == raw[12] as int && h.dataType == raw[15] as int
      && h.frameTime == 0x100_0000 * raw[16] as int + 0x1_0000 * raw[17] as int + 256 * raw[18] as int
                        + raw[19] as int
  {
    hide FromBigEndian;
    FourBytes(raw[4..8]);
    TwoBytes(raw[10..12]);
    FourBytes(raw[16..20]);
  }

  datatype Chunk = Chunk(header: Header, payload: seq<byte>)

  datatype Outcome = Finished | Corrupt | Truncated

  datatype Walk = Walk(chunks: seq<Chunk>, outcome: Outcome)

  /** `from_bytes`: struct format ">4s I x B H B 2x B I 12x". */
  function HeaderOf(raw: seq<byte>): Header
    requires |raw| >= HEADER_SIZE
  {
    Header(raw[..4], FromBigEndian(raw[4..8]), raw[9] as int, FromBigEndian(raw[10..12]),
           raw[12] as int, raw[15] as int, FromBigEndian(raw[16..20]))
  }

  /** What is left of the file after the chunk, which may declare more padding than there is. */
  function After(rest: seq<byte>, h: Header): seq<byte> {
    if h.Size() <= |rest| then rest[h.Size()..] else []
  }

  predicate HasPayload(rest: seq<byte>, h: Header)
    requires h.Sound()
  {
    8 + h.dataOffset + h.PayloadSize() <= |rest|
  }

  function PayloadOf(rest: seq<byte>, h: Header): (payload: seq<byte>)
    requires h.Sound() && HasPayload(rest, h)
    ensures |payload| == h.PayloadSize()
  {
    rest[8 + h.dataOffset..8 + h.dataOffset + h.PayloadSize()]
  }

  /** The walk over what is left of a file. */
  function Read(rest: seq<byte>): Walk
    decreases |rest|
  {
    if |rest| < HEADER_SIZE then Walk([], Finished)
    else
      var h := HeaderOf(rest);
      if !h.Sound() then Walk([], Corrupt)
      else if !HasPayload(rest, h) then Walk([], Truncated)
      else
        var next := Read(After(rest, h));
        Walk([Chunk(h, PayloadOf(rest, h))] + next.chunks, next.outcome)
  }

  function RestAt(file: seq<byte>, pos: nat): seq<byte> {
    if pos <= |file| then file[pos..] else []
  }

  /** The walk `w` after the chunks already taken. */
  function Behind(chunks: seq<Chunk>, w: Walk): Walk {
    Walk(chunks + w.chunks, w.outcome)
  }

  lemma ReadStops(rest: seq<byte>, chunks: seq<Chunk>)
    ensures |rest| < HEADER_SIZE ==> Behind(chunks, Read(rest)) == Walk(chunks, Finished)
    ensures |rest| >= HEADER_SIZE && !HeaderOf(rest).Sound() ==> Behind(chunks, Read(rest)) == Walk(chunks, Corrupt)
    ensures |rest| >= HEADER_SIZE && HeaderOf(rest).Sound() && !HasPayload(rest, HeaderOf(rest)) ==>
      Behind(chunks, Read(rest)) == Walk(chunks, Truncated)
  {
    hide HeaderOf;
    assert chunks + [] == chunks;
  }

  lemma ReadSteps(rest: seq<byte>, chunks: seq<Chunk>)
    requires |rest| >= HEADER_SIZE && HeaderOf(rest).Sound() && HasPayload(rest, HeaderOf(rest))
    ensures var chunk := Chunk(HeaderOf(rest), PayloadOf(rest, HeaderOf(rest)));
      Behind(chunks, Read(rest)) == Behind(chunks + [chunk], Read(After(rest, HeaderOf(rest))))
  {
    hide HeaderOf;
    var chunk := Chunk(HeaderOf(rest), PayloadOf(rest, HeaderOf(rest)));
    var next := Read(After(rest, HeaderOf(rest)));
    assert chunks + ([chunk] + next.chunks) == (chunks + [chunk]) + next.chunks;
  }

  /** `read_chunks`: the chunks it yields, and how it ends. */
  method ReadChunks(file: seq<byte>) returns (chunks: seq<Chunk>, outcome: Outcome)
    ensures Walk(chunks, outcome) == Read(file)
  {
    hide HeaderOf, Read, Behind;
    chunks := [];
    var pos := 0;
    assert RestAt(file, 0) == file && Read(file) == Behind([], Read(file)) by {
      NothingBehind(Read(file));
    }
    while true
      invariant Read(file) == Behind(chunks, Read(RestAt(file, pos)))
      decreases |file| - pos
    {
      ghost var rest := RestAt(file, pos);
      ReadStops(rest, chunks);
      if pos + HEADER_SIZE > |file| {
        return chunks, Finished;
      }
      var header := HeaderOf(file[pos..]);
      var payloadSize := header.dataSize - header.dataOffset - header.paddingSize;
      if payloadSize < 0 || header.dataOffset < MIN_DATA_OFFSET {
        return chunks, Corrupt;
      }
      pos := pos + HEADER_SIZE + (header.dataOffset - MIN_DATA_OFFSET);
      if payloadSize > |file| - pos {
        return chunks, Truncated;
      }
      var payload := file[pos..pos + payloadSize];
      pos := pos + payloadSize + header.paddingSize;
      assert payload == PayloadOf(rest, header);
      assert RestAt(file, pos) == After(rest, header);
      ReadSteps(rest, chunks);
      chunks := chunks + [Chunk(header, payload)];
    }
  }

  lemma NothingBehind(w: Walk)
    ensures Behind([], w) == w
  {
    assert [] + w.chunks == w.chunks;
  }

  // ----- The writer

  /** A chunk as a writer lays it out: what the header says, the bytes nothing reads, and the bytes
      around the payload. */
  datatype Piece = Piece(signature: seq<byte>, channelNo: byte, dataType: byte, frameTime: nat,
                         unread8: byte, unread13: seq<byte>, unread20: seq<byte>,
                         gap: seq<byte>, payload: seq<byte>, padding: seq<byte>)
  {
    function DataOffset(): nat {
      MIN_DATA_OFFSET + |gap|
    }

    function DataSize(): nat {
      DataOffset() + |payload| + |padding|
    }

    /** The fields fit their places. */
    predicate Fits() {
      && |signature| == 4 && |unread13| == 2 && |unread20| == 12
      && frameTime < 0x1_0000_0000 && DataOffset() < 256 && |padding| < 0x10000 && DataSize() < 0x1_0000_0000
    }

    function AsHeader(): Header {
      Header(signature, DataSize(), DataOffset(), |padding|, channelNo as int, dataType as int, frameTime)
    }

    function AsChunk(): Chunk {
      Chunk(AsHeader(), payload)
    }

    function RawHeader(): (raw: seq<byte>)
      requires Fits()
      ensures |raw| == HEADER_SIZE
    {
      signature + ToBigEndian(DataSize(), 4) + [unread8, ByteOf(DataOffset())] + ToBigEndian(|padding|, 2)
      + [channelNo] + unread13 + [dataType] + ToBigEndian(frameTime, 4) + unread20
    }

    /** The bytes of the chunk. */
    function Encoded(): (bytes: seq<byte>)
      requires Fits()
      ensures |bytes| == AsHeader().Size()
    {
      RawHeader() + gap + payload + padding
    }
  }

  function EncodedAll(pieces: seq<Piece>): seq<byte>
    requires AllFit(pieces)
  {
    if pieces == [] then [] else pieces[0].Encoded() + EncodedAll(pieces[1..])
  }

  predicate AllFit(pieces: seq<Piece>) {
    forall k :: 0 <= k < |pieces| ==> pieces[k].Fits()
  }

  function AsChunks(pieces: seq<Piece>): seq<Chunk> {
    seq(|pieces|, k requires 0 <= k < |pieces| => pieces[k].AsChunk())
  }

  function LastPadding(pieces: seq<Piece>): nat {
    if pieces == [] then 0 else |pieces[|pieces| - 1].padding|
  }

  /** `rest` begins with `encoded`, of which at most the last `slack` bytes may be missing. */
  ghost predicate Begins(rest: seq<byte>, encoded: seq<byte>, slack: nat) {
    && |rest| + slack >= |encoded|
    && if |encoded| <= |rest| then rest[..|encoded|] == encoded else rest == encoded[..|rest|]
  }

  // ----- One chunk

  lemma RawHeaderParts(p: Piece)
    requires p.Fits()
    ensures var raw := p.RawHeader();
      && raw[..4] == p.signature && raw[4..8] == ToBigEndian(p.DataSize(), 4)
      && raw[9] == ByteOf(p.DataOffset()) && raw[10..12] == ToBigEndian(|p.padding|, 2)
      && raw[12] == p.channelNo && raw[15] == p.dataType && raw[16..20] == ToBigEndian(p.frameTime, 4)
  {
    hide ToBigEndian, ByteOf;
  }

  lemma HeaderReadsBack(p: Piece)
    requires p.Fits()
    ensures HeaderOf(p.RawHeader()) == p.AsHeader()
  {
    hide ToBigEndian, FromBigEndian, Pow256;
    RawHeaderParts(p);
    Widths();
    BigEndianRoundTrip(p.DataSize(), 4);
    BigEndianRoundTrip(|p.padding|, 2);
    BigEndianRoundTrip(p.frameTime, 4);
  }

  lemma HeaderOfPrefix(raw: seq<byte>, rest: seq<byte>)
    requires |raw| >= HEADER_SIZE && |rest| >= HEADER_SIZE && raw[..HEADER_SIZE] == rest[..HEADER_SIZE]
    ensures HeaderOf(raw) == HeaderOf(rest)
  {
    hide FromBigEndian;
    forall i | 0 <= i < HEADER_SIZE ensures raw[i] == rest[i] {
      assert raw[..HEADER_SIZE][i] == rest[..HEADER_SIZE][i];
    }
    assert raw[..4] == rest[..4] && raw[4..8] == rest[4..8];
    assert raw[10..12] == rest[10..12] && raw[16..20] == rest[16..20];
  }

  lemma SameSlice(a: seq<byte>, b: seq<byte>, m: nat, i: nat, j: nat)
    requires i <= j <= m <= |a| && m <= |b| && a[..m] == b[..m]
    ensures a[i..j] == b[i..j]
  {
    assert a[i..j] == a[..m][i..j] && b[i..j] == b[..m][i..j];
  }

  /** What begins with the bytes of a chunk reads as that chunk first. */
  lemma PieceReadsBack(p: Piece, rest: seq<byte>)
    requires p.Fits() && Begins(rest, p.Encoded(), |p.padding|)
    ensures var next := Read(RestAt(rest, |p.Encoded()|));
      Read(rest) == Walk([p.AsChunk()] + next.chunks, next.outcome)
  {
    hide HeaderOf, Piece.RawHeader, Piece.Fits;
    var encoded, h := p.Encoded(), p.AsHeader();
    var start := 8 + p.DataOffset();
    var m := if |encoded| <= |rest| then |encoded| else |rest|;
    assert rest[..m] == encoded[..m];
    assert encoded[..HEADER_SIZE] == p.RawHeader();
    SameSlice(rest, encoded, m, 0, HEADER_SIZE);
    HeaderReadsBack(p);
    HeaderOfPrefix(p.RawHeader(), rest);
    assert encoded[start..start + |p.payload|] == p.payload;
    SameSlice(rest, encoded, m, start, start + |p.payload|);
    assert After(rest, h) == RestAt(rest, |encoded|);
  }

  /** A chunk the walk accepts is laid out as a writer would. Padding beyond the end of the file
      reads as zeros. */
  function PieceAt(rest: seq<byte>): Piece
    requires |rest| >= HEADER_SIZE && HeaderOf(rest).Sound() && HasPayload(rest, HeaderOf(rest))
  {
    var h := HeaderOf(rest);
    var end := 8 + h.dataOffset + h.PayloadSize();
    Piece(h.signature, rest[12], rest[15], h.frameTime, rest[8], rest[13..15], rest[20..32],
          rest[HEADER_SIZE..8 + h.dataOffset], PayloadOf(rest, h),
          if h.Size() <= |rest| then rest[end..h.Size()]
          else rest[end..] + seq(h.Size() - |rest|, _ => 0))
  }

  lemma RawHeaderIs(rest: seq<byte>, p: Piece)
    requires |rest| >= HEADER_SIZE && p.Fits()
    requires p.signature == rest[..4] && ToBigEndian(p.DataSize(), 4) == rest[4..8]
    requires p.unread8 == rest[8] && ByteOf(p.DataOffset()) == rest[9] && ToBigEndian(|p.padding|, 2) == rest[10..12]
    requires p.channelNo == rest[12] && p.unread13 == rest[13..15] && p.dataType == rest[15]
    requires ToBigEndian(p.frameTime, 4) == rest[16..20] && p.unread20 == rest[20..32]
    ensures p.RawHeader() == rest[..HEADER_SIZE]
  {
    hide ToBigEndian, ByteOf;
  }

  lemma PieceAtFits(rest: seq<byte>)
    requires |rest| >= HEADER_SIZE && HeaderOf(rest).Sound() && HasPayload(rest, HeaderOf(rest))
    ensures var p, h := PieceAt(rest), HeaderOf(rest);
      p.Fits() && p.AsHeader() == h && p.AsChunk() == Chunk(h, PayloadOf(rest, h))
  {
    hide ToBigEndian, FromBigEndian, Pow256;
    Widths();
    BigEndianUnique(rest[4..8]);
    BigEndianUnique(rest[10..12]);
    BigEndianUnique(rest[16..20]);
  }

  lemma PieceAtHeader(rest: seq<byte>)
    requires |rest| >= HEADER_SIZE && HeaderOf(rest).Sound() && HasPayload(rest, HeaderOf(rest))
    ensures PieceAt(rest).Fits() && PieceAt(rest).RawHeader() == rest[..HEADER_SIZE]
  {
    hide ToBigEndian, FromBigEndian, Pow256, ByteOf, Piece.Fits, Piece.RawHeader;
    PieceAtFits(rest);
    BigEndianUnique(rest[4..8]);
    BigEndianUnique(rest[10..12]);
    BigEndianUnique(rest[16..20]);
    ByteComesBack(rest[9]);
    RawHeaderIs(rest, PieceAt(rest));
  }

  lemma AcceptedIsPiece(rest: seq<byte>)
    requires |rest| >= HEADER_SIZE && HeaderOf(rest).Sound() && HasPayload(rest, HeaderOf(rest))
    ensures var p := PieceAt(rest);
      && p.Fits() && p.AsChunk() == Chunk(HeaderOf(rest), PayloadOf(rest, HeaderOf(rest)))
      && Begins(rest, p.Encoded(), |p.padding|)
  {
    hide HeaderOf, Piece.RawHeader, Piece.Fits;
    PieceAtFits(rest);
    PieceAtHeader(rest);
    var p, h := PieceAt(rest), HeaderOf(rest);
    var end := 8 + h.dataOffset + h.PayloadSize();
    assert rest[..end] == rest[..HEADER_SIZE] + rest[HEADER_SIZE..8 + h.dataOffset] + rest[8 + h.dataOffset..end];
    assert p.Encoded() == rest[..end] + p.padding;
  }

  // ----- Whole files

  lemma BeginsConcat(rest: seq<byte>, a: seq<byte>, b: seq<byte>, slackA: nat, slackB: nat)
    requires if b == [] then slackB == 0 else slackB < |b|
    ensures Begins(rest, a + b, if b == [] then slackA else slackB) <==>
      Begins(rest, a, slackA) && Begins(RestAt(rest, |a|), b, slackB)
  {
    if b == [] {
      assert a + b == a;
    } else if |a| < |rest| {
      var m := if |a + b| <= |rest| then |a + b| else |rest|;
      assert (a + b)[..m] == a + b[..m - |a|];
      assert rest[..m] == rest[..|a|] + rest[|a|..][..m - |a|];
    }
  }

  lemma {:induction false} LastPaddingIsInside(pieces: seq<Piece>)
    requires AllFit(pieces)
    ensures if pieces == [] then EncodedAll(pieces) == [] else LastPadding(pieces) < |EncodedAll(pieces)|
  {
    hide Piece.Encoded, Piece.Fits;
    if pieces != [] {
      assert AllFit(pieces[1..]);
      LastPaddingIsInside(pieces[1..]);
      assert pieces[0].Fits();
      PaddingIsInside(pieces[0]);
    }
  }

  lemma PaddingIsInside(p: Piece)
    requires p.Fits()
    ensures |p.padding| < |p.Encoded()|
  {
    assert |p.Encoded()| == 8 + p.DataSize();
  }

  /** A file begins with the bytes of all chunks if it does with those of the first, and what is
      left with those of the others. */
  lemma BeginsSplit(rest: seq<byte>, pieces: seq<Piece>)
    requires pieces != [] && AllFit(pieces)
    ensures AllFit(pieces[1..]) && pieces[0].Fits()
    ensures Begins(rest, EncodedAll(pieces), LastPadding(pieces)) <==>
      && Begins(rest, pieces[0].Encoded(), |pieces[0].padding|)
      && Begins(RestAt(rest, |pieces[0].Encoded()|), EncodedAll(pieces[1..]), LastPadding(pieces[1..]))
  {
    hide Piece.Encoded, Piece.Fits, Begins;
    assert AllFit(pieces[1..]);
    LastPaddingIsInside(pieces[1..]);
    BeginsConcat(rest, pieces[0].Encoded(), EncodedAll(pieces[1..]), |pieces[0].padding|, LastPadding(pieces[1..]));
  }

  /** The walk undoes the writer, for any offsets and padding: a file that begins with the bytes of
      some chunks, of which only padding of the last may be missing, reads as those chunks and then
      as what comes after them. */
  lemma {:induction false} WalkReadsBack(file: seq<byte>, pieces: seq<Piece>)
    requires AllFit(pieces) && Begins(file, EncodedAll(pieces), LastPadding(pieces))
    ensures Read(file) == Behind(AsChunks(pieces), Read(RestAt(file, |EncodedAll(pieces)|)))
    decreases |pieces|
  {
    hide Piece.Encoded, Piece.Fits, Begins, Read, Piece.AsChunk, LastPadding;
    if pieces == [] {
      NothingBehind(Read(file));
      assert RestAt(file, 0) == file;
    } else {
      BeginsSplit(file, pieces);
      var first, more := pieces[0].Encoded(), pieces[1..];
      var rest := RestAt(file, |first|);
      PieceReadsBack(pieces[0], file);
      WalkReadsBack(rest, more);
      assert RestAt(rest, |EncodedAll(more)|) == RestAt(file, |EncodedAll(pieces)|);
      assert AsChunks(pieces) == [pieces[0].AsChunk()] + AsChunks(more);
    }
  }

  /** The chunks the walk yields tile the file from its start, each over exactly the bytes its
      header declares, whole payload included; only padding of the last may lie beyond the end. The
      walk stops where they end: before fewer than 32 bytes, or at a chunk it refuses. */
  lemma {:induction false} ChunksTileFile(file: seq<byte>) returns (pieces: seq<Piece>)
    ensures AllFit(pieces) && AsChunks(pieces) == Read(file).chunks
    ensures Begins(file, EncodedAll(pieces), LastPadding(pieces))
    ensures Read(RestAt(file, |EncodedAll(pieces)|)) == Walk([], Read(file).outcome)
    decreases |file|
  {
    hide Piece.Encoded, Piece.Fits, HeaderOf, PieceAt, LastPadding;
    if |file| >= HEADER_SIZE && HeaderOf(file).Sound() && HasPayload(file, HeaderOf(file)) {
      var first := PieceAt(file);
      AcceptedIsPiece(file);
      var rest := After(file, HeaderOf(file));
      var more := ChunksTileFile(rest);
      pieces := [first] + more;
      TileOneMore(file, first, more, rest);
    } else {
      pieces := [];
      NothingTiles(file);
    }
  }

  lemma NothingTiles(file: seq<byte>)
    ensures AllFit([]) && Begins(file, EncodedAll([]), LastPadding([])) && RestAt(file, |EncodedAll([])|) == file
    ensures AsChunks([]) == []
  {}

  lemma TileOneMore(file: seq<byte>, first: Piece, more: seq<Piece>, rest: seq<byte>)
    requires first.Fits() && AllFit(more) && Begins(file, first.Encoded(), |first.padding|)
    requires rest == RestAt(file, |first.Encoded()|) && Begins(rest, EncodedAll(more), LastPadding(more))
    ensures var pieces := [first] + more;
      && AllFit(pieces) && Begins(file, EncodedAll(pieces), LastPadding(pieces))
      && AsChunks(pieces) == [first.AsChunk()] + AsChunks(more)
      && RestAt(rest, |EncodedAll(more)|) == RestAt(file, |EncodedAll(pieces)|)
  {
    hide Piece.Encoded, Piece.Fits, Begins, LastPadding;
    var pieces := [first] + more;
    assert pieces[1..] == more;
    BeginsSplit(file, pieces);
  }
}
