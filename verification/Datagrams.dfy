/** The writer of the datagrams that capture/sniffer.py takes apart: the segments of a datagram read
    back, and one that was cut short is missed. */
module Datagrams {
  import opened Bytes
  import opened Kcp

  /** A segment as it is sent, with the bytes of its header that nothing reads: the token after
      `conv`, the window and time, the number acknowledged, and four more before the data. */
  datatype Wire = Wire(segment: Segment, token: seq<byte>, windowAndTime: seq<byte>, una: seq<byte>, unread: seq<byte>)
  {
    predicate Fits() {
      && segment.conv < 0x1_0000_0000 && segment.cmd < 256 && segment.fragment.frg < 256
      && segment.sn < 0x1_0000_0000 && |segment.fragment.part| < 0x1_0000_0000
      && |token| == 4 && |windowAndTime| == 6 && |una| == 4 && |unread| == 4
    }

    function Header(): (header: seq<byte>)
      requires Fits()
      ensures |header| == HEADER_SIZE
    {
      ToLittleEndian(segment.conv, 4) + token + [ByteOf(segment.cmd), ByteOf(segment.fragment.frg)] + windowAndTime
      + ToLittleEndian(segment.sn, 4) + una + ToLittleEndian(|segment.fragment.part|, 4) + unread
    }

    function Raw(): (raw: seq<byte>)
      requires Fits()
      ensures |raw| == HEADER_SIZE + |segment.fragment.part|
    {
      Header() + segment.fragment.part
    }
  }

  predicate AllFit(wires: seq<Wire>) {
    forall k :: 0 <= k < |wires| ==> wires[k].Fits()
  }

  function RawAll(wires: seq<Wire>): seq<byte>
    requires AllFit(wires)
  {
    if wires == [] then [] else wires[0].Raw() + RawAll(wires[1..])
  }

  function SegmentsOf(wires: seq<Wire>): seq<Segment> {
    seq(|wires|, k requires 0 <= k < |wires| => wires[k].segment)
  }

  lemma HeaderParts(w: Wire)
    requires w.Fits()
    ensures var h := w.Header();
      && h[0..4] == ToLittleEndian(w.segment.conv, 4) && h[8] == ByteOf(w.segment.cmd)
      && h[9] == ByteOf(w.segment.fragment.frg) && h[16..20] == ToLittleEndian(w.segment.sn, 4)
      && h[24..28] == ToLittleEndian(|w.segment.fragment.part|, 4)
  {
    hide ToLittleEndian, ByteOf;
  }

  lemma Int32ReadsBack(n: nat)
    requires n < 0x1_0000_0000
    ensures FromLittleEndian(ToLittleEndian(n, 4)) == n
  {
    hide ToLittleEndian, FromLittleEndian;
    LittleEndianRoundTrip(n, 4);
    Widths();
  }

  /** What the datagram holds at `pos` is the header of `w`, as far as it is looked at. */
  lemma Within(data: seq<byte>, pos: nat, w: Wire)
    requires w.Fits() && pos + HEADER_SIZE <= |data| && data[pos..pos + HEADER_SIZE] == w.Header()
    ensures Int32At(data, pos) == w.segment.conv && Int32At(data, pos + 16) == w.segment.sn
    ensures Int32At(data, pos + 24) == |w.segment.fragment.part|
    ensures data[pos + 8] as int == w.segment.cmd && data[pos + 9] as int == w.segment.fragment.frg
  {
    hide ToLittleEndian, FromLittleEndian, Wire.Header;
    var h := w.Header();
    HeaderParts(w);
    Int32ReadsBack(w.segment.conv);
    Int32ReadsBack(w.segment.sn);
    Int32ReadsBack(|w.segment.fragment.part|);
    forall k | 0 <= k < HEADER_SIZE ensures data[pos + k] == h[k] {
      assert data[pos..pos + HEADER_SIZE][k] == h[k];
    }
    assert data[pos..pos + 4] == h[0..4];
    assert data[pos + 16..pos + 20] == h[16..20];
    assert data[pos + 24..pos + 28] == h[24..28];
  }

  lemma SegmentReadsBack(before: seq<byte>, w: Wire, after: seq<byte>)
    requires w.Fits()
    ensures var data := before + w.Raw() + after;
      && SegmentEnd(data, |before|) == Some(|before + w.Raw()|)
      && SegmentAt(data, |before|) == w.segment
  {
    hide Wire.Header, Wire.Fits, Int32At;
    var data, pos := before + w.Raw() + after, |before|;
    assert data[pos..pos + HEADER_SIZE] == w.Header();
    Within(data, pos, w);
    assert data[pos + HEADER_SIZE..pos + |w.Raw()|] == w.segment.fragment.part;
  }

  /** A segment of which the end is missing is not taken. */
  lemma CutSegmentIsMissed(before: seq<byte>, w: Wire, n: nat)
    requires w.Fits() && n < |w.Raw()|
    ensures SegmentEnd(before + w.Raw()[..n], |before|) == None
  {
    hide Wire.Header, Wire.Fits, Int32At;
    var data, pos := before + w.Raw()[..n], |before|;
    if n >= HEADER_SIZE {
      assert data[pos..pos + HEADER_SIZE] == w.Header();
      Within(data, pos, w);
    }
  }

  lemma {:induction false} SegmentsReadBack(before: seq<byte>, wires: seq<Wire>, after: seq<byte>)
    requires AllFit(wires) && SegmentEnd(before + RawAll(wires) + after, |before + RawAll(wires)|) == None
    ensures Segments(before + RawAll(wires) + after, |before|) == SegmentsOf(wires)
    decreases |wires|
  {
    hide Wire.Raw, Wire.Fits, SegmentEnd, SegmentAt;
    var data := before + RawAll(wires) + after;
    if wires == [] {
      assert before + RawAll(wires) == before;
    } else {
      var first, rest := wires[0].Raw(), wires[1..];
      SegmentReadsBack(before, wires[0], RawAll(rest) + after);
      assert data == before + first + (RawAll(rest) + after);
      assert data == (before + first) + RawAll(rest) + after;
      assert (before + first) + RawAll(rest) == before + RawAll(wires);
      SegmentsReadBack(before + first, rest, after);
      assert SegmentsOf(wires) == [wires[0].segment] + SegmentsOf(rest);
    }
  }

  /** A datagram gives exactly the segments that were put into it whole, in order, whatever they
      hold; a last one that was cut short gives nothing. */
  lemma DatagramReadsBack(wires: seq<Wire>, last: Wire, n: nat)
    requires AllFit(wires) && last.Fits() && n < |last.Raw()|
    ensures Segments(RawAll(wires) + last.Raw()[..n], 0) == SegmentsOf(wires)
  {
    hide Wire.Raw, Wire.Fits, SegmentEnd;
    CutSegmentIsMissed(RawAll(wires), last, n);
    assert [] + RawAll(wires) == RawAll(wires);
    SegmentsReadBack([], wires, last.Raw()[..n]);
  }
}
