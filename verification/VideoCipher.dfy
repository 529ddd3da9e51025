/** The video mask of stages/usm.py: the byte-by-byte feedback chain, the block-wise
    `decrypt_video` that collapses it, and the forward chain that undoes both. */
module VideoCipher {
  import opened Bytes
  import opened BlockMask

  // A masked payload: 0x40 clear bytes, a 0x100-byte head, and the chained body.
  const MASK_START := 0x40
  const CIPHER_START := 0x140
  const HEAD_SIZE := CIPHER_START - MASK_START
  const MIN_MASKED := 0x200

  type Block = b: seq<byte> | |b| == 32 witness seq(32, _ => 0)

  predicate IsMasked(payloadSize: int) {
    payloadSize - MASK_START >= MIN_MASKED
  }

  function MaskBytes(m: Mask): Block {
    seq(32, j requires 0 <= j < 32 => ByteOf(m[j]))
  }

  function Inverted(block: Block): Block {
    seq(32, j requires 0 <= j < 32 => block[j] ^ 0xFF)
  }

  /** The plaintext of body byte `x`. Each lane of 32 feeds its plaintext back into its mask. */
  function BodyByte(c: seq<byte>, mask2: Block, x: nat): byte
    requires CIPHER_START <= x < |c|
    decreases x, 1
  {
    c[x] ^ BodyMask(c, mask2, x)
  }

  function BodyMask(c: seq<byte>, mask2: Block, x: nat): byte
    requires CIPHER_START <= x && x - 32 < |c|
    decreases x, 0
  {
    if x < CIPHER_START + BLOCK then mask2[x % 32] else BodyByte(c, mask2, x - 32) ^ mask2[x % 32]
  }

  /** The mask of head byte `x`, which takes in the plaintext 0x100 further on in `p`. */
  function HeadMask(p: seq<byte>, mask1: Block, x: nat): byte
    requires MASK_START <= x && x + HEAD_SIZE < |p|
  {
    (if x < MASK_START + BLOCK then mask1[x % 32] else HeadMask(p, mask1, x - 32)) ^ p[x + HEAD_SIZE]
  }

  function BodyDecrypted(c: seq<byte>, mask2: Block): (p: seq<byte>)
    ensures |p| == |c|
  {
    seq(|c|, x requires 0 <= x < |c| => if x < CIPHER_START then c[x] else BodyByte(c, mask2, x))
  }

  /** Applies the head masks made from the plaintext body in `p`. The same call puts them on and
      takes them off. */
  function HeadMasked(p: seq<byte>, mask1: Block): (q: seq<byte>)
    requires IsMasked(|p|)
    ensures |q| == |p|
  {
    seq(|p|, x requires 0 <= x < |p| =>
      if MASK_START <= x < CIPHER_START then p[x] ^ HeadMask(p, mask1, x) else p[x])
  }

  /** What the feedback chain makes of a payload. */
  function Decrypted(c: seq<byte>, mask1: Block, mask2: Block): (p: seq<byte>)
    ensures |p| == |c|
  {
    if IsMasked(|c|) then HeadMasked(BodyDecrypted(c, mask2), mask1) else c
  }

  /** The forward chain, which masks a payload. */
  function Encrypted(p: seq<byte>, mask1: Block, mask2: Block): (c: seq<byte>)
    ensures |c| == |p|
  {
    if IsMasked(|p|) then BodyEncrypted(HeadMasked(p, mask1), mask2) else p
  }

  function BodyEncrypted(p: seq<byte>, mask2: Block): (c: seq<byte>)
    ensures |c| == |p|
  {
    seq(|p|, x requires 0 <= x < |p| =>
      if x < CIPHER_START then p[x]
      else if x < CIPHER_START + BLOCK then p[x] ^ mask2[x % 32]
      else p[x] ^ (p[x - 32] ^ mask2[x % 32]))
  }

  // ----- What a payload holds, byte by byte

  /** Payloads below 0x240 bytes stay as they are, and so do the first 0x40 bytes of any. From 0x140
      on each plaintext byte is masked with the second mask and, after the first 32, with the
      plaintext 32 bytes back. */
  lemma BodyByteByByte(c: seq<byte>, mask1: Block, mask2: Block, x: nat)
    requires x < |c|
    ensures |c| < 0x240 || x < 0x40 ==> Decrypted(c, mask1, mask2)[x] == c[x]
    ensures var p := Decrypted(c, mask1, mask2);
      |c| >= 0x240 && x >= 0x140 ==>
        c[x] == if x < 0x160 then p[x] ^ mask2[x % 32] else p[x] ^ (p[x - 32] ^ mask2[x % 32])
  {
    if |c| >= 0x240 && x >= 0x140 {
      hide HeadMask, BodyByte;
      BodyByteMasked(c, mask2, x);
    }
  }

  lemma BodyByteMasked(c: seq<byte>, mask2: Block, x: nat)
    requires 0x140 <= x < |c|
    ensures c[x] == if x < 0x160 then BodyByte(c, mask2, x) ^ mask2[x % 32]
                    else BodyByte(c, mask2, x) ^ (BodyByte(c, mask2, x - 32) ^ mask2[x % 32])
  {
    hide BodyByte, EvenRow, Running;
    OneRowBack(c, mask2, x);
    if x < 0x160 {
      XorBack(c[x], mask2[x % 32]);
    } else {
      XorBack(c[x], BodyByte(c, mask2, x - 32) ^ mask2[x % 32]);
    }
  }

  lemma XorBack(c: byte, m: byte)
    ensures (c ^ m) ^ m == c
  {}

  /** From 0x40 to 0x13F the mask of a byte is the plaintext 0x100 bytes on, under the mask 32 bytes
      back, or under the first mask in the first 32. */
  lemma HeadByteByByte(c: seq<byte>, mask1: Block, mask2: Block, x: nat)
    requires |c| >= 0x240 && 0x40 <= x < 0x140
    ensures var p := Decrypted(c, mask1, mask2);
      c[x] ^ p[x] == p[x + 0x100] ^ if x < 0x60 then mask1[x % 32] else c[x - 32] ^ p[x - 32]
  {
    hide BodyByte;
    var p, q := Decrypted(c, mask1, mask2), BodyDecrypted(c, mask2);
    HeadMaskIs(q, mask1, x);
    assert q[x] == c[x] && p[x + 0x100] == q[x + 0x100];
    MaskBetween(c[x], HeadMask(q, mask1, x));
    if x >= 0x60 {
      assert q[x - 32] == c[x - 32];
      MaskBetween(c[x - 32], HeadMask(q, mask1, x - 32));
    }
  }

  lemma MaskBetween(c: byte, m: byte)
    ensures c ^ (c ^ m) == m
  {}

  lemma HeadMaskIs(p: seq<byte>, mask1: Block, x: nat)
    requires IsMasked(|p|) && 0x40 <= x < 0x140
    ensures HeadMask(p, mask1, x) == p[x + 0x100] ^ if x < 0x60 then mask1[x % 32] else HeadMask(p, mask1, x - 32)
  {}

  // ----- The chain is a bijection on the payloads of each length

  lemma {:induction false} BodyByteOfEncrypted(p: seq<byte>, mask2: Block, x: nat)
    requires CIPHER_START <= x < |p|
    ensures BodyByte(BodyEncrypted(p, mask2), mask2, x) == p[x]
  {
    if x >= CIPHER_START + BLOCK {
      BodyByteOfEncrypted(p, mask2, x - 32);
    }
  }

  lemma BodyRoundTrip(p: seq<byte>, mask2: Block)
    ensures BodyDecrypted(BodyEncrypted(p, mask2), mask2) == p
    ensures BodyEncrypted(BodyDecrypted(p, mask2), mask2) == p
  {
    forall x | CIPHER_START <= x < |p| ensures BodyByte(BodyEncrypted(p, mask2), mask2, x) == p[x] {
      BodyByteOfEncrypted(p, mask2, x);
    }
    var d := BodyDecrypted(p, mask2);
    forall x | CIPHER_START <= x < |p| ensures BodyEncrypted(d, mask2)[x] == p[x] {
      assert d[x] == p[x] ^ BodyMask(p, mask2, x);
    }
  }

  lemma {:induction false} HeadMaskReadsBody(p: seq<byte>, q: seq<byte>, mask1: Block, x: nat)
    requires |p| == |q| && MASK_START <= x && x + HEAD_SIZE < |p|
    requires forall y :: CIPHER_START <= y < |p| ==> p[y] == q[y]
    ensures HeadMask(p, mask1, x) == HeadMask(q, mask1, x)
  {
    if x >= MASK_START + BLOCK {
      HeadMaskReadsBody(p, q, mask1, x - 32);
    }
  }

  lemma HeadRoundTrip(p: seq<byte>, mask1: Block)
    requires IsMasked(|p|)
    ensures HeadMasked(HeadMasked(p, mask1), mask1) == p
  {
    var q := HeadMasked(p, mask1);
    forall x | MASK_START <= x < CIPHER_START ensures HeadMask(p, mask1, x) == HeadMask(q, mask1, x) {
      HeadMaskReadsBody(p, q, mask1, x);
    }
  }

  /** Decryption and the forward chain undo each other on every payload of every length. */
  lemma ChainIsBijection(payload: seq<byte>, mask1: Block, mask2: Block)
    ensures Decrypted(Encrypted(payload, mask1, mask2), mask1, mask2) == payload
    ensures Encrypted(Decrypted(payload, mask1, mask2), mask1, mask2) == payload
  {
    if IsMasked(|payload|) {
      BodyRoundTrip(HeadMasked(payload, mask1), mask2);
      HeadRoundTrip(payload, mask1);
      var plain := BodyDecrypted(payload, mask2);
      HeadRoundTrip(plain, mask1);
      BodyRoundTrip(payload, mask2);
    }
  }

  // ----- The running XOR

  /** The XOR of ciphertext byte `x` and every body byte before it in its lane. */
  function Running(c: seq<byte>, x: nat): byte
    requires CIPHER_START <= x < |c|
  {
    c[x] ^ (if x < CIPHER_START + BLOCK then 0 else Running(c, x - 32))
  }

  predicate EvenRow(x: int) {
    (x - CIPHER_START) / 32 % 2 == 0
  }

  lemma MaskCancels(c: byte, r: byte, m: byte)
    ensures c ^ ((r ^ m) ^ m) == c ^ r && c ^ (r ^ m) == (c ^ r) ^ m && c ^ 0 == c
  {}

  lemma RowsAlternate(x: int)
    ensures EvenRow(x) != EvenRow(x - 32)
  {
    assert (x - 32 - CIPHER_START) / 32 == (x - CIPHER_START) / 32 - 1;
  }

  /** The identity `decrypt_video` and the cracker share: the chain's plaintext is the running
      XOR in odd rows and the running XOR under `mask2` in even ones. */
  lemma {:induction false} RunningIdentity(c: seq<byte>, mask2: Block, x: nat)
    requires CIPHER_START <= x < |c|
    ensures BodyByte(c, mask2, x) == if EvenRow(x) then Running(c, x) ^ mask2[x % 32] else Running(c, x)
  {
    hide BodyByte, BodyMask, Running, EvenRow;
    OneRowBack(c, mask2, x);
    if x < CIPHER_START + BLOCK {
      MaskCancels(c[x], 0, mask2[x % 32]);
    } else {
      RunningIdentity(c, mask2, x - 32);
      MaskCancels(c[x], Running(c, x - 32), mask2[x % 32]);
    }
  }

  lemma OneRowBack(c: seq<byte>, mask2: Block, x: nat)
    requires CIPHER_START <= x < |c|
    ensures x < CIPHER_START + BLOCK ==>
      EvenRow(x) && BodyByte(c, mask2, x) == c[x] ^ mask2[x % 32] && Running(c, x) == c[x] ^ 0
    ensures x >= CIPHER_START + BLOCK ==>
      && EvenRow(x) != EvenRow(x - 32) && (x - 32) % 32 == x % 32
      && BodyByte(c, mask2, x) == c[x] ^ (BodyByte(c, mask2, x - 32) ^ mask2[x % 32])
      && Running(c, x) == c[x] ^ Running(c, x - 32)
  {
    RowsAlternate(x);
  }

  // ----- The two implementations

  lemma OtherLanes(i: int, x: int)
    requires i < x < i + 32
    ensures x % 32 != i % 32
  {}

  /** The working mask of the body loop before byte `i`: the masks of the next 32 bytes. */
  ghost predicate HoldsBodyMasks(mask: Block, c: seq<byte>, mask2: Block, i: nat)
    requires CIPHER_START <= i <= |c|
  {
    forall x: nat :: i <= x < i + 32 ==> mask[x % 32] == BodyMask(c, mask2, x)
  }

  lemma MasksAtStart(c: seq<byte>, p: seq<byte>, mask1: Block, mask2: Block)
    requires IsMasked(|c|) && |p| == |c|
    ensures HoldsBodyMasks(mask2, c, mask2, CIPHER_START) && HoldsHeadMasks(mask1, p, mask1, MASK_START)
  {}

  lemma BodyIs(c: seq<byte>, mask2: Block, d: seq<byte>)
    requires |d| == |c|
    requires forall x :: 0 <= x < |c| ==> d[x] == if CIPHER_START <= x then BodyByte(c, mask2, x) else c[x]
    ensures d == BodyDecrypted(c, mask2)
  {
    hide BodyByte;
  }

  lemma HeadIs(p: seq<byte>, mask1: Block, d: seq<byte>)
    requires IsMasked(|p|) && |d| == |p|
    requires forall x :: 0 <= x < |p| ==> d[x] == if MASK_START <= x < CIPHER_START then p[x] ^ HeadMask(p, mask1, x)
                                                  else p[x]
    ensures d == HeadMasked(p, mask1)
  {
    hide HeadMask;
  }

  lemma MaskOfByte(c: seq<byte>, mask2: Block, i: nat)
    requires CIPHER_START <= i < |c|
    ensures BodyByte(c, mask2, i) == c[i] ^ BodyMask(c, mask2, i)
    ensures (i + 32) % 32 == i % 32 && BodyMask(c, mask2, i + 32) == BodyByte(c, mask2, i) ^ mask2[i % 32]
  {}

  lemma BodyMaskStep(mask: Block, c: seq<byte>, mask2: Block, i: nat)
    requires CIPHER_START <= i < |c| && HoldsBodyMasks(mask, c, mask2, i)
    ensures c[i] ^ mask[i % 32] == BodyByte(c, mask2, i)
    ensures HoldsBodyMasks(mask[i % 32 := BodyByte(c, mask2, i) ^ mask2[i % 32]], c, mask2, i + 1)
  {
    hide BodyByte, BodyMask;
    MaskOfByte(c, mask2, i);
    forall x: nat | i < x < i + 33
      ensures mask[i % 32 := BodyByte(c, mask2, i) ^ mask2[i % 32]][x % 32] == BodyMask(c, mask2, x)
    {
      if x < i + 32 {
        OtherLanes(i, x);
      }
    }
  }

  /** The working mask of the head loop before byte `i`. */
  ghost predicate HoldsHeadMasks(mask: Block, p: seq<byte>, mask1: Block, i: nat)
    requires MASK_START <= i && i + HEAD_SIZE <= |p|
  {
    forall x: nat :: i <= x < i + 32 ==>
      mask[x % 32] == if x < MASK_START + BLOCK then mask1[x % 32] else HeadMask(p, mask1, x - 32)
  }

  lemma HeadMaskStep(mask: Block, p: seq<byte>, mask1: Block, i: nat)
    requires MASK_START <= i && i + HEAD_SIZE < |p| && HoldsHeadMasks(mask, p, mask1, i)
    ensures mask[i % 32] ^ p[i + HEAD_SIZE] == HeadMask(p, mask1, i)
    ensures HoldsHeadMasks(mask[i % 32 := HeadMask(p, mask1, i)], p, mask1, i + 1)
  {
    forall x: nat | i < x < i + 33
      ensures mask[i % 32 := HeadMask(p, mask1, i)][x % 32]
           == if x < MASK_START + BLOCK then mask1[x % 32] else HeadMask(p, mask1, x - 32)
    {
      if x < i + 32 {
        OtherLanes(i, x);
      }
    }
  }

  /** The byte-by-byte chain `decrypt_video` is checked against: two working masks, each byte
      of which is replaced as it is used. */
  method MaskVideoReference(data: array<byte>, videoMask1: Block, videoMask2: Block)
    modifies data
    ensures data[..] == Decrypted(old(data[..]), videoMask1, videoMask2)
  {
    if !IsMasked(data.Length) {
      return;
    }
    MaskBodyReference(data, videoMask2);
    MaskHeadReference(data, videoMask1);
  }

  method MaskHeadReference(data: array<byte>, videoMask1: Block)
    requires IsMasked(data.Length)
    modifies data
    ensures data[..] == HeadMasked(old(data[..]), videoMask1)
  {
    hide HoldsHeadMasks, HeadMask, HeadMasked;
    ghost var p := data[..];
    MasksAtStart(p, p, videoMask1, videoMask1);
    var mask := videoMask1;
    for i := MASK_START to CIPHER_START
      invariant HoldsHeadMasks(mask, p, videoMask1, i)
      invariant forall x :: 0 <= x < data.Length ==>
        data[x] == if MASK_START <= x < i then p[x] ^ HeadMask(p, videoMask1, x) else p[x]
    {
      HeadMaskStep(mask, p, videoMask1, i);
      mask := mask[i % 32 := mask[i % 32] ^ data[HEAD_SIZE + i]];
      data[i] := data[i] ^ mask[i % 32];
    }
    HeadIs(p, videoMask1, data[..]);
  }

  method MaskBodyReference(data: array<byte>, videoMask2: Block)
    requires IsMasked(data.Length)
    modifies data
    ensures data[..] == BodyDecrypted(old(data[..]), videoMask2)
  {
    hide HoldsBodyMasks, BodyByte, BodyMask, BodyDecrypted;
    ghost var c := data[..];
    MasksAtStart(c, c, videoMask2, videoMask2);
    var mask := videoMask2;
    for i := CIPHER_START to data.Length
      invariant HoldsBodyMasks(mask, c, videoMask2, i)
      invariant forall x :: 0 <= x < data.Length ==>
        data[x] == if CIPHER_START <= x < i then BodyByte(c, videoMask2, x) else c[x]
    {
      BodyMaskStep(mask, c, videoMask2, i);
      data[i] := data[i] ^ mask[i % 32];
      mask := mask[i % 32 := data[i] ^ videoMask2[i % 32]];
    }
    BodyIs(c, videoMask2, data[..]);
  }

  /** `USM.decrypt_video`: whole-block running XORs, `mask2` on the even rows, the partial tail
      under the mask after the last full row, and the head last. */
  method DecryptVideo(data: array<byte>, videoMask1: Block, videoMask2: Block)
    modifies data
    ensures data[..] == Decrypted(old(data[..]), videoMask1, videoMask2)
  {
    if !IsMasked(data.Length) {
      return;
    }
    DecryptBody(data, videoMask2);
    DecryptHead(data, videoMask1);
  }

  method DecryptHead(data: array<byte>, videoMask1: Block)
    requires IsMasked(data.Length)
    modifies data
    ensures data[..] == HeadMasked(old(data[..]), videoMask1)
  {
    hide HeadMask, HeadMasked;
    ghost var p := data[..];
    var mask := new byte[HEAD_SIZE];
    for i := 0 to HEAD_SIZE
      invariant data[..] == p
      invariant forall x :: 0 <= x < i ==> mask[x] == HeadMask(p, videoMask1, x + MASK_START)
    {
      mask[i] := data[CIPHER_START + i] ^ (if i < BLOCK then videoMask1[i] else mask[i - 32]);
      HeadMaskAt(p, videoMask1, i);
    }
    for i := MASK_START to CIPHER_START
      invariant forall x :: 0 <= x < HEAD_SIZE ==> mask[x] == HeadMask(p, videoMask1, x + MASK_START)
      invariant forall x :: 0 <= x < data.Length ==>
        data[x] == if MASK_START <= x < i then p[x] ^ HeadMask(p, videoMask1, x) else p[x]
    {
      data[i] := data[i] ^ mask[i - MASK_START];
      assert mask[i - MASK_START] == HeadMask(p, videoMask1, i - MASK_START + MASK_START);
    }
    HeadIs(p, videoMask1, data[..]);
  }

  lemma HeadMaskAt(p: seq<byte>, mask1: Block, i: nat)
    requires IsMasked(|p|) && i < HEAD_SIZE
    ensures HeadMask(p, mask1, i + MASK_START)
         == p[CIPHER_START + i] ^ (if i < BLOCK then mask1[i] else HeadMask(p, mask1, i - 32 + MASK_START))
  {
    assert i < BLOCK ==> i == (i + MASK_START) % 32;
  }

  method DecryptBody(data: array<byte>, videoMask2: Block)
    requires IsMasked(data.Length)
    modifies data
    ensures data[..] == BodyDecrypted(old(data[..]), videoMask2)
  {
    hide BodyByte, BodyDecrypted, EvenRow, Running;
    ghost var c := data[..];
    var running := PlainRows(data, videoMask2);
    var tail := CIPHER_START + running.Length;
    for x := CIPHER_START to tail
      invariant forall y :: 0 <= y < running.Length ==> running[y] == BodyByte(c, videoMask2, y + CIPHER_START)
      invariant forall y :: 0 <= y < data.Length ==>
        data[y] == if CIPHER_START <= y < x then BodyByte(c, videoMask2, y) else c[y]
    {
      data[x] := running[x - CIPHER_START];
    }
    for x := tail to data.Length
      invariant forall y :: 0 <= y < running.Length ==> running[y] == BodyByte(c, videoMask2, y + CIPHER_START)
      invariant forall y :: 0 <= y < data.Length ==>
        data[y] == if CIPHER_START <= y < x then BodyByte(c, videoMask2, y) else c[y]
    {
      OneRowBack(c, videoMask2, x);
      TailColumn(tail, x);
      assert running[x - CIPHER_START - 32] == BodyByte(c, videoMask2, x - CIPHER_START - 32 + CIPHER_START);
      data[x] := data[x] ^ (running[x - CIPHER_START - 32] ^ videoMask2[x - tail]);
    }
    BodyIs(c, videoMask2, data[..]);
  }

  lemma TailColumn(tail: nat, x: nat)
    requires tail % 32 == 0 && tail <= x < tail + 32
    ensures x % 32 == x - tail
  {}

  /** The plaintext of the full rows, from the running XOR of the ciphertext rows. */
  method PlainRows(data: array<byte>, videoMask2: Block) returns (running: array<byte>)
    requires IsMasked(data.Length)
    ensures fresh(running)
    ensures running.Length % BLOCK == 0 && BLOCK <= running.Length
    ensures running.Length <= data.Length - CIPHER_START < running.Length + BLOCK
    ensures forall x :: 0 <= x < running.Length ==>
      running[x] == BodyByte(data[..], videoMask2, x + CIPHER_START)
  {
    hide Running, BodyByte, EvenRow;
    ghost var c := data[..];
    var rows := (data.Length - CIPHER_START) / BLOCK;
    running := RunningRows(data, rows);
    for t := 0 to rows * BLOCK
      invariant forall x :: 0 <= x < t ==> running[x] == BodyByte(c, videoMask2, x + CIPHER_START)
      invariant forall x :: t <= x < rows * BLOCK ==> running[x] == Running(c, x + CIPHER_START)
    {
      RunningIdentity(c, videoMask2, t + CIPHER_START);
      RowOfByte(t);
      if t / 32 % 2 == 0 {
        running[t] := running[t] ^ videoMask2[t % 32];
      }
    }
  }

  lemma RowOfByte(t: nat)
    ensures t % 32 == (t + CIPHER_START) % 32 && (EvenRow(t + CIPHER_START) <==> t / 32 % 2 == 0)
  {}

  /** `np.bitwise_xor.accumulate` of the full rows. */
  method RunningRows(data: array<byte>, rows: nat) returns (running: array<byte>)
    requires rows * BLOCK <= data.Length - CIPHER_START
    ensures fresh(running) && running.Length == rows * BLOCK
    ensures forall x :: 0 <= x < running.Length ==> running[x] == Running(data[..], x + CIPHER_START)
  {
    ghost var c := data[..];
    running := new byte[rows * BLOCK];
    for t := 0 to rows * BLOCK
      invariant data[..] == c
      invariant forall x :: 0 <= x < t ==> running[x] == Running(c, x + CIPHER_START)
    {
      running[t] := data[CIPHER_START + t] ^ (if t < BLOCK then 0 else running[t - 32]);
    }
  }
}
