/** How `demux` of stages/usm.py splits a file into streams. The AES stream of newer files is a
    parameter. */
module Demux {
  import opened Bytes
  import opened Lists
  import opened UsmChunks
  import VideoCipher

  const CRID: seq<byte> := [0x43, 0x52, 0x49, 0x44]
  const SFV: seq<byte> := [0x40, 0x53, 0x46, 0x56]
  const SFA: seq<byte> := [0x40, 0x53, 0x46, 0x41]
  const CUE: seq<byte> := [0x40, 0x43, 0x55, 0x45]
  const ALP: seq<byte> := [0x40, 0x41, 0x4C, 0x50]
  const KNOWN: set<seq<byte>> := {CRID, SFV, SFA, CUE, ALP}

  /** A file that demux writes: the .ivf, or the .hca of a channel. */
  datatype Target = Video | Audio(channel: nat)

  /** A file without a nonce uses the old mask. */
  datatype Cipher =
    | Mask(mask1: VideoCipher.Block, mask2: VideoCipher.Block)
    | Stream(decrypt: (seq<byte>, nat) -> seq<byte>)

  function TargetOf(h: Header): Option<Target> {
    if h.signature == SFV && h.IsData() then Some(Video)
    else if h.signature == SFA && h.IsData() then Some(Audio(h.channelNo))
    else None
  }

  /** What is written for the chunk. */
  function Plain(cipher: Cipher, c: Chunk): seq<byte> {
    if TargetOf(c.header) != Some(Video) then c.payload
    else
      match cipher
      case Mask(mask1, mask2) => VideoCipher.Decrypted(c.payload, mask1, mask2)
      case Stream(decrypt) => decrypt(c.payload, c.header.frameTime)
  }

  /** Everything written to one file. */
  function Contents(cipher: Cipher, chunks: seq<Chunk>, t: Target): seq<byte> {
    if chunks == [] then []
    else
      var last := chunks[|chunks| - 1];
      Contents(cipher, chunks[..|chunks| - 1], t) + if TargetOf(last.header) == Some(t) then Plain(cipher, last) else []
  }

  /** The files in the order their first chunks come. */
  function Created(chunks: seq<Chunk>): seq<Target> {
    if chunks == [] then []
    else
      var before, target := Created(chunks[..|chunks| - 1]), TargetOf(chunks[|chunks| - 1].header);
      if target.Some? && target.value !in before then before + [target.value] else before
  }

  predicate IsUnknown(h: Header) {
    TargetOf(h).None? && h.signature !in KNOWN
  }

  /** The unknown signatures in the order they first come. */
  function Unknown(chunks: seq<Chunk>): seq<seq<byte>> {
    if chunks == [] then []
    else
      var before, h := Unknown(chunks[..|chunks| - 1]), chunks[|chunks| - 1].header;
      if IsUnknown(h) && h.signature !in before then before + [h.signature] else before
  }

  // ----- What those lists hold

  /** A signature as it is spelled. */
  function Ascii(text: string): seq<byte>
    requires forall i :: 0 <= i < |text| ==> text[i] as int < 256
  {
    seq(|text|, i requires 0 <= i < |text| => ByteOf(text[i] as int))
  }

  /** A chunk goes to the video file if it is a data chunk signed `@SFV`, and to the audio file of its
      channel if it is one signed `@SFA`. */
  ghost predicate IsFor(h: Header, t: Target) {
    h.dataType == 0 && match t case Video => h.signature == Ascii("@SFV")
                               case Audio(channel) => h.signature == Ascii("@SFA") && h.channelNo == channel
  }

  lemma Spelled()
    ensures Ascii("@SFV") == SFV && Ascii("@SFA") == SFA
    ensures Ascii("CRID") == CRID && Ascii("@CUE") == CUE && Ascii("@ALP") == ALP
    ensures SFV != SFA
  {
    hide ByteOf;
    Letters();
    assert SFV[3] != SFA[3];
  }

  lemma Letters()
    ensures ByteOf('@' as int) == 0x40 && ByteOf('A' as int) == 0x41 && ByteOf('C' as int) == 0x43
    ensures ByteOf('D' as int) == 0x44 && ByteOf('E' as int) == 0x45 && ByteOf('F' as int) == 0x46
    ensures ByteOf('I' as int) == 0x49 && ByteOf('L' as int) == 0x4C && ByteOf('P' as int) == 0x50
    ensures ByteOf('R' as int) == 0x52 && ByteOf('S' as int) == 0x53 && ByteOf('U' as int) == 0x55
    ensures ByteOf('V' as int) == 0x56
  {}

  lemma TargetIs(h: Header, t: Target)
    ensures TargetOf(h) == Some(t) <==> IsFor(h, t)
  {
    hide Ascii;
    Spelled();
  }

  ghost predicate Comes(chunks: seq<Chunk>, t: Target) {
    exists k :: 0 <= k < |chunks| && IsFor(chunks[k].header, t)
  }

  lemma ComesSplit(chunks: seq<Chunk>, t: Target)
    requires chunks != []
    ensures Comes(chunks, t) <==>
      Comes(chunks[..|chunks| - 1], t) || TargetOf(chunks[|chunks| - 1].header) == Some(t)
  {
    hide TargetOf, IsFor;
    TargetIs(chunks[|chunks| - 1].header, t);
    var front := chunks[..|chunks| - 1];
    assert forall k :: 0 <= k < |front| ==> front[k] == chunks[k];
  }

  /** A file is created exactly if a chunk of it comes, only once, and at its first chunk: what is
      created by then stays a prefix. A file no chunk is for has no contents. */
  lemma {:induction false} CreatedAtFirstChunk(cipher: Cipher, chunks: seq<Chunk>, k: nat)
    requires k <= |chunks|
    ensures Distinct(Created(chunks)) && Created(chunks[..k]) <= Created(chunks)
    ensures forall t :: t in Created(chunks) <==> Comes(chunks, t)
    ensures forall t :: !Comes(chunks, t) ==> Contents(cipher, chunks, t) == []
    decreases |chunks|
  {
    hide TargetOf, Plain, Comes;
    if chunks == [] {
      assert forall t :: !Comes(chunks, t) by { NothingComes(); }
    } else {
      var front := chunks[..|chunks| - 1];
      CreatedAtFirstChunk(cipher, front, if k < |chunks| then k else k - 1);
      forall t ensures Comes(chunks, t) <==> Comes(front, t) || TargetOf(chunks[|chunks| - 1].header) == Some(t) {
        ComesSplit(chunks, t);
      }
      if k < |chunks| {
        assert front[..k] == chunks[..k];
      } else {
        assert chunks[..k] == chunks;
      }
    }
  }

  lemma NothingComes()
    ensures forall t :: !Comes([], t)
  {}

  ghost predicate Known(signature: seq<byte>) {
    || signature == Ascii("CRID") || signature == Ascii("@SFV") || signature == Ascii("@SFA")
    || signature == Ascii("@CUE") || signature == Ascii("@ALP")
  }

  /** Each signature that comes and is none of the five is warned about once, and no other is. */
  lemma {:induction false} WarnedOnce(chunks: seq<Chunk>)
    ensures Distinct(Unknown(chunks))
    ensures forall s :: s in Unknown(chunks) <==>
      !Known(s) && exists k :: 0 <= k < |chunks| && chunks[k].header.signature == s
  {
    hide Known, IsUnknown;
    if chunks != [] {
      var front, h := chunks[..|chunks| - 1], chunks[|chunks| - 1].header;
      WarnedOnce(front);
      UnknownIs(h);
      assert forall k :: 0 <= k < |front| ==> front[k] == chunks[k];
    }
  }

  lemma UnknownIs(h: Header)
    ensures IsUnknown(h) <==> !Known(h.signature)
  {
    hide Ascii;
    Spelled();
  }

  // ----- The method

  /** `demux`: the streams, the files in the order they were opened, the signatures warned about and
      how the walk over the file ended. */
  method Demux(file: seq<byte>, cipher: Cipher)
    returns (streams: map<Target, seq<byte>>, created: seq<Target>, warned: seq<seq<byte>>, outcome: Outcome)
    ensures outcome == Read(file).outcome
    ensures created == Created(Read(file).chunks) && warned == Unknown(Read(file).chunks)
    ensures forall t :: t in streams <==> t in created
    ensures forall t :: t in streams ==> streams[t] == Contents(cipher, Read(file).chunks, t)
  {
    hide TargetOf, Plain, Read, Contents, Created, Unknown, IsUnknown, Comes;
    var chunks;
    chunks, outcome := ReadChunks(file);
    streams, created, warned := map[], [], [];
    var known := KNOWN;
    NothingWritten(cipher);
    for count := 0 to |chunks|
      invariant created == Created(chunks[..count]) && warned == Unknown(chunks[..count])
      invariant forall t :: t in streams <==> t in created
      invariant forall t :: t in streams ==> streams[t] == Contents(cipher, chunks[..count], t)
      invariant forall s :: s in known <==> s in KNOWN || s in warned
    {
      var c := chunks[count];
      ghost var before := chunks[..count];
      assert chunks[..count + 1] == before + [c];
      OneMore(cipher, before, c);
      CreatedAtFirstChunk(cipher, before, 0);
      var target := TargetOf(c.header);
      if target.Some? {
        var payload := Payload(cipher, c);
        if target.value !in streams {
          streams := streams[target.value := []];
          created := created + [target.value];
        }
        streams := streams[target.value := streams[target.value] + payload];
      } else if c.header.signature !in known {
        known := known + {c.header.signature};
        warned := warned + [c.header.signature];
      }
    }
    assert chunks[..|chunks|] == chunks;
  }

  lemma NothingWritten(cipher: Cipher)
    ensures Created([]) == [] && Unknown([]) == [] && forall t :: Contents(cipher, [], t) == []
  {}

  lemma OneMore(cipher: Cipher, chunks: seq<Chunk>, c: Chunk)
    ensures forall t :: Contents(cipher, chunks + [c], t)
                     == Contents(cipher, chunks, t) + if TargetOf(c.header) == Some(t) then Plain(cipher, c) else []
    ensures var target := TargetOf(c.header);
      Created(chunks + [c])
      == Created(chunks) + if target.Some? && target.value !in Created(chunks) then [target.value] else []
    ensures Unknown(chunks + [c])
      == Unknown(chunks)
         + if TargetOf(c.header).None? && c.header.signature !in KNOWN && c.header.signature !in Unknown(chunks)
           then [c.header.signature] else []
    ensures forall t :: !Comes(chunks, t) ==> Contents(cipher, chunks, t) == []
  {
    hide TargetOf, Plain, Comes;
    assert (chunks + [c])[..|chunks|] == chunks;
    CreatedAtFirstChunk(cipher, chunks, 0);
  }

  /** The payload as it is written, decrypted in a buffer of its own if it is video. */
  method Payload(cipher: Cipher, c: Chunk) returns (payload: seq<byte>)
    ensures payload == Plain(cipher, c)
  {
    hide VideoCipher.Decrypted;
    payload := c.payload;
    if TargetOf(c.header) == Some(Video) {
      match cipher
      case Mask(mask1, mask2) =>
        var buffer := new byte[|c.payload|](i requires 0 <= i < |c.payload| => c.payload[i]);
        assert buffer[..] == c.payload;
        VideoCipher.DecryptVideo(buffer, mask1, mask2);
        payload := buffer[..];
      case Stream(decrypt) =>
        payload := decrypt(c.payload, c.header.frameTime);
    }
  }

  // ----- From the writer to the streams

  /** How a writer seals a payload of the given time. */
  type Seal = (seq<byte>, nat) -> seq<byte>

  /** The cipher opens what the seal closes, and no payload changes its size. */
  ghost predicate OpensSeal(cipher: Cipher, seal: Seal) {
    forall payload, time ::
      && |seal(payload, time)| == |payload|
      && match cipher
         case Mask(mask1, mask2) => VideoCipher.Decrypted(seal(payload, time), mask1, mask2) == payload
         case Stream(decrypt) => decrypt(seal(payload, time), time) == payload
  }

  /** The old mask opens what the forward chain closes. */
  lemma MaskOpensChain(mask1: VideoCipher.Block, mask2: VideoCipher.Block)
    ensures OpensSeal(Mask(mask1, mask2), (payload, _) => VideoCipher.Encrypted(payload, mask1, mask2))
  {
    hide VideoCipher.Encrypted, VideoCipher.Decrypted;
    forall payload ensures VideoCipher.Decrypted(VideoCipher.Encrypted(payload, mask1, mask2), mask1, mask2) == payload
    {
      VideoCipher.ChainIsBijection(payload, mask1, mask2);
    }
  }

  /** The chunk that carries a plain payload, sealed if it is video. */
  ghost function Sealed(p: Piece, seal: Seal): Piece {
    if IsFor(p.AsHeader(), Video) then p.(payload := seal(p.payload, p.frameTime)) else p
  }

  ghost function SealedAll(pieces: seq<Piece>, seal: Seal): (sealed: seq<Piece>)
    ensures |sealed| == |pieces|
  {
    seq(|pieces|, k requires 0 <= k < |pieces| => Sealed(pieces[k], seal))
  }

  /** The payloads of one file's chunks, joined. */
  ghost function Payloads(pieces: seq<Piece>, t: Target): seq<byte> {
    if pieces == [] then []
    else
      var last := pieces[|pieces| - 1];
      Payloads(pieces[..|pieces| - 1], t) + if IsFor(last.AsHeader(), t) then last.payload else []
  }

  lemma SealedKeepsHeader(p: Piece, cipher: Cipher, seal: Seal)
    requires OpensSeal(cipher, seal)
    ensures var sealed := Sealed(p, seal);
      && sealed.AsHeader() == p.AsHeader() && (p.Fits() ==> sealed.Fits())
      && Plain(cipher, sealed.AsChunk()) == p.payload
  {
    hide VideoCipher.Decrypted, TargetOf, IsFor;
    TargetIs(p.AsHeader(), Video);
    assert |seal(p.payload, p.frameTime)| == |p.payload|;
  }

  lemma {:induction false} SealedContents(pieces: seq<Piece>, cipher: Cipher, seal: Seal, t: Target)
    requires OpensSeal(cipher, seal)
    ensures Contents(cipher, AsChunks(SealedAll(pieces, seal)), t) == Payloads(pieces, t)
  {
    hide Sealed, TargetOf, Plain, IsFor, OpensSeal;
    if pieces != [] {
      var front, last := pieces[..|pieces| - 1], pieces[|pieces| - 1];
      SealedContents(front, cipher, seal, t);
      SealedKeepsHeader(last, cipher, seal);
      TargetIs(last.AsHeader(), t);
      var chunks := AsChunks(SealedAll(pieces, seal));
      assert chunks[..|chunks| - 1] == AsChunks(SealedAll(front, seal));
    }
  }

  /** A file written from plain payloads under either cipher, with any offsets and padding and fewer
      than 32 bytes behind it, demuxes to exactly those payloads, stream by stream. */
  lemma DemuxUndoesTheWriter(pieces: seq<Piece>, cipher: Cipher, seal: Seal, trailing: seq<byte>, t: Target)
    requires AllFit(pieces) && |trailing| < HEADER_SIZE && OpensSeal(cipher, seal)
    ensures AllFit(SealedAll(pieces, seal))
    ensures var walk := Read(EncodedAll(SealedAll(pieces, seal)) + trailing);
      walk.outcome == Finished && Contents(cipher, walk.chunks, t) == Payloads(pieces, t)
  {
    hide Sealed, Contents, Payloads, EncodedAll, Piece.Fits, Piece.AsChunk, LastPadding, OpensSeal;
    var sealed := SealedAll(pieces, seal);
    forall k | 0 <= k < |sealed| ensures sealed[k].Fits() {
      SealedKeepsHeader(pieces[k], cipher, seal);
    }
    var encoded := EncodedAll(sealed);
    var file := encoded + trailing;
    assert file[..|encoded|] == encoded && RestAt(file, |encoded|) == trailing;
    WalkReadsBack(file, sealed);
    assert AsChunks(sealed) + [] == AsChunks(sealed);
    SealedContents(pieces, cipher, seal, t);
  }
}
