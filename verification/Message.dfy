/** The framing of a game message and the repeated XOR key over it, from capture/crypto.py. */
module Message {
  import opened Bytes

  const MAGIC_START: seq<byte> := [0x45, 0x67]
  const MAGIC_END: seq<byte> := [0x89, 0xAB]
  // The bytes of a message besides its header and body.
  const FRAMING_SIZE := 12

  datatype Parsed = Parsed(command: nat, header: seq<byte>, body: seq<byte>)

  /** The byte of the repeated key over position `i`. An empty key is a stream of zeros. */
  function KeyStream(key: seq<byte>, i: nat): byte {
    if key == [] then 0 else key[i % |key|]
  }

  /** `xor`. */
  function XorWith(data: seq<byte>, key: seq<byte>): (out: seq<byte>)
    ensures |out| == |data|
  {
    seq(|data|, i requires 0 <= i < |data| => data[i] ^ KeyStream(key, i))
  }

  /** `parse`. */
  function Parse(plain: seq<byte>): Option<Parsed> {
    if |plain| < FRAMING_SIZE || plain[..2] != MAGIC_START || plain[|plain| - 2..] != MAGIC_END then None
    else
      var command := FromBigEndian(plain[2..4]);
      var headerSize := FromBigEndian(plain[4..6]);
      var bodySize := FromBigEndian(plain[6..10]);
      if FRAMING_SIZE + headerSize + bodySize != |plain| then None
      else
        var headerEnd := 10 + headerSize;
        Some(Parsed(command, plain[10..headerEnd], plain[headerEnd..|plain| - 2]))
  }

  /** The frame a sender builds. */
  function Framed(p: Parsed): seq<byte> {
    MAGIC_START + ToBigEndian(p.command, 2) + ToBigEndian(|p.header|, 2) + ToBigEndian(|p.body|, 4)
    + p.header + p.body + MAGIC_END
  }

  predicate Fits(p: Parsed) {
    p.command < 0x10000 && |p.header| < 0x10000 && |p.body| < 0x1_0000_0000
  }

  /** XORing twice under one key gives the data back. */
  lemma XorTwice(data: seq<byte>, key: seq<byte>)
    ensures XorWith(XorWith(data, key), key) == data
  {}

  /** The key goes over the data again and again: what lies beyond its length starts it anew. Data
      under an empty key stays as it is. */
  lemma KeyRepeats(data: seq<byte>, key: seq<byte>)
    ensures key == [] ==> XorWith(data, key) == data
    ensures forall i :: 0 <= i < |data| && i < |key| ==> XorWith(data, key)[i] == data[i] ^ key[i]
    ensures |data| > |key| > 0 ==> XorWith(data, key) == XorWith(data[..|key|], key) + XorWith(data[|key|..], key)
  {
    if |data| > |key| > 0 {
      KeyStartsAnew(data, key);
    } else if key == [] {
      ZeroStream(data);
    }
  }

  lemma ZeroStream(data: seq<byte>)
    ensures XorWith(data, []) == data
  {}

  lemma KeyStartsAnew(data: seq<byte>, key: seq<byte>)
    requires |data| > |key| > 0
    ensures XorWith(data, key) == XorWith(data[..|key|], key) + XorWith(data[|key|..], key)
  {
    var n := |key|;
    forall i | 0 <= i < |data| - n ensures KeyStream(key, i + n) == KeyStream(key, i) {
      OnePeriodOn(i, n);
    }
    hide KeyStream;
    forall i | 0 <= i < |data|
      ensures XorWith(data, key)[i] == (XorWith(data[..n], key) + XorWith(data[n..], key))[i]
    {
      if i >= n {
        assert data[n..][i - n] == data[i] && KeyStream(key, i - n + n) == KeyStream(key, i - n);
      }
    }
  }

  lemma OnePeriodOn(i: nat, period: nat)
    requires period > 0
    ensures (i + period) % period == i % period
  {
    DivisionUnique(i + period, period, i / period + 1, i % period);
  }

  /** The frame byte by byte: the magic, the command and the two sizes highest byte first, the header,
      the body, and the magic of the end. */
  lemma FrameLayout(p: Parsed)
    requires Fits(p)
    ensures var f, n := Framed(p), |p.header|;
      && |f| == 12 + n + |p.body|
      && f[0] == 0x45 && f[1] == 0x67 && f[|f| - 2] == 0x89 && f[|f| - 1] == 0xAB
      && 256 * f[2] as int + f[3] as int == p.command && 256 * f[4] as int + f[5] as int == n
      && 0x100_0000 * f[6] as int + 0x1_0000 * f[7] as int + 256 * f[8] as int + f[9] as int == |p.body|
      && f[10..10 + n] == p.header && f[10 + n..|f| - 2] == p.body
  {
    hide ToBigEndian, FromBigEndian, Framed;
    FramedParts(p);
    var f := Framed(p);
    Widths();
    BigEndianRoundTrip(p.command, 2);
    BigEndianRoundTrip(|p.header|, 2);
    BigEndianRoundTrip(|p.body|, 4);
    TwoBytes(f[2..4]);
    TwoBytes(f[4..6]);
    FourBytes(f[6..10]);
    assert f[..2][0] == f[0] && f[..2][1] == f[1];
    assert f[|f| - 2..][0] == f[|f| - 2] && f[|f| - 2..][1] == f[|f| - 1];
  }

  lemma FramedParts(p: Parsed)
    ensures var f := Framed(p);
      && |f| == FRAMING_SIZE + |p.header| + |p.body|
      && f[..2] == MAGIC_START && f[2..4] == ToBigEndian(p.command, 2)
      && f[4..6] == ToBigEndian(|p.header|, 2) && f[6..10] == ToBigEndian(|p.body|, 4)
      && f[10..10 + |p.header|] == p.header && f[10 + |p.header|..|f| - 2] == p.body
      && f[|f| - 2..] == MAGIC_END
  {
    hide ToBigEndian;
  }

  lemma FramedParses(p: Parsed)
    requires Fits(p)
    ensures Parse(Framed(p)) == Some(p)
  {
    hide ToBigEndian, FromBigEndian, Framed, Pow256;
    FramedParts(p);
    Widths();
    BigEndianRoundTrip(p.command, 2);
    BigEndianRoundTrip(|p.header|, 2);
    BigEndianRoundTrip(|p.body|, 4);
  }

  lemma ParsedIsFramed(plain: seq<byte>)
    requires Parse(plain).Some?
    ensures Fits(Parse(plain).value) && plain == Framed(Parse(plain).value)
  {
    hide ToBigEndian, FromBigEndian, Pow256;
    var p := Parse(plain).value;
    Widths();
    BigEndianUnique(plain[2..4]);
    BigEndianUnique(plain[4..6]);
    BigEndianUnique(plain[6..10]);
    assert plain == plain[..2] + plain[2..4] + plain[4..6] + plain[6..10]
                    + plain[10..10 + |p.header|] + plain[10 + |p.header|..|plain| - 2] + plain[|plain| - 2..];
  }

  /** A plaintext parses to a message exactly when it is that message's frame. */
  lemma ParsesIffFramed(plain: seq<byte>, p: Parsed)
    ensures Parse(plain) == Some(p) <==> Fits(p) && plain == Framed(p)
  {
    hide Parse, Framed;
    if Parse(plain) == Some(p) {
      ParsedIsFramed(plain);
    }
    if Fits(p) {
      FramedParses(p);
    }
  }
}
