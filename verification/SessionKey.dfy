/** The session-key search of capture/crypto.py. The client's random draws are a parameter. */
module SessionKey {
  import opened Bytes
  import opened Lists
  import opened Message
  import opened Mersenne

  // Byte `i` of a message goes with byte `i % KEY_SIZE` of its key.
  const KEY_SIZE := 4096
  const CHUNK_MS := 3000
  const CLIENT_DRAWS := 5
  // Adding a time from here on to the 64-bit offsets raises.
  const CLOCK_LIMIT := 0x8000_0000_0000_0000

  /** The draw `n` of the client's generator seeded with a 32-bit clock. */
  type Draws = (int, nat) -> word

  // ----- The key of a seed

  /** Word `w` of a seed's session key: the generator's first number seeds a second one, and the
      key is that one's numbers from its second on. */
  function SessionWord(seed: word, w: nat): word {
    Output(Output(seed, 0), w + 1)
  }

  /** Byte `b` of a word in big-endian order. */
  function ByteOfWord(w: word, b: nat): byte
    requires b < 8
  {
    LowBits(Down(w, 8 * (7 - b)))
  }

  function Down(w: word, n: nat): word
    requires n < 64
  {
    w >> n
  }

  function LowBits(w: word): byte { (w & 0xFF) as byte }

  function KeyByte(seed: word, i: nat): byte {
    ByteOfWord(SessionWord(seed, i / 8), i % 8)
  }

  function KeyOf(seed: word): (key: seq<byte>)
    ensures |key| == KEY_SIZE
  {
    seq(KEY_SIZE, i requires 0 <= i < KEY_SIZE => KeyByte(seed, i))
  }

  // ----- The key's bytes are its words, highest byte first

  /** The word whose bytes these are, highest first. */
  function BigEndianWord(bytes: seq<byte>): word
    requires |bytes| == 8
  {
    JoinedBytes(bytes[0], bytes[1], bytes[2], bytes[3], bytes[4], bytes[5], bytes[6], bytes[7])
  }

  function JoinedBytes(a: byte, b: byte, c: byte, d: byte, e: byte, f: byte, g: byte, h: byte): word {
    ((a as word) << 56) | ((b as word) << 48) | ((c as word) << 40) | ((d as word) << 32)
    | ((e as word) << 24) | ((f as word) << 16) | ((g as word) << 8) | (h as word)
  }

  lemma JoinedIsWord(w: word)
    ensures JoinedBytes(((w >> 56) & 0xFF) as byte, ((w >> 48) & 0xFF) as byte, ((w >> 40) & 0xFF) as byte,
                        ((w >> 32) & 0xFF) as byte, ((w >> 24) & 0xFF) as byte, ((w >> 16) & 0xFF) as byte,
                        ((w >> 8) & 0xFF) as byte, (w & 0xFF) as byte) == w
  {}

  lemma LowBitsAre(w: word)
    ensures LowBits(w) == (w & 0xFF) as byte
  {}

  lemma DownFar(w: word)
    ensures Down(w, 56) == w >> 56 && Down(w, 48) == w >> 48
  {}

  lemma DownHalf(w: word)
    ensures Down(w, 40) == w >> 40 && Down(w, 32) == w >> 32
  {}

  lemma DownLess(w: word)
    ensures Down(w, 24) == w >> 24 && Down(w, 16) == w >> 16
  {}

  lemma DownLittle(w: word)
    ensures Down(w, 8) == w >> 8 && Down(w, 0) == w
  {}

  lemma SplitsDown(w: word)
    ensures ByteOfWord(w, 0) == ((w >> 56) & 0xFF) as byte && ByteOfWord(w, 1) == ((w >> 48) & 0xFF) as byte
    ensures ByteOfWord(w, 2) == ((w >> 40) & 0xFF) as byte && ByteOfWord(w, 3) == ((w >> 32) & 0xFF) as byte
    ensures ByteOfWord(w, 4) == ((w >> 24) & 0xFF) as byte && ByteOfWord(w, 5) == ((w >> 16) & 0xFF) as byte
    ensures ByteOfWord(w, 6) == ((w >> 8) & 0xFF) as byte && ByteOfWord(w, 7) == (w & 0xFF) as byte
  {
    hide Down, LowBits;
    DownFar(w);
    DownHalf(w);
    DownLess(w);
    DownLittle(w);
    LowBitsAre(w >> 56);
    LowBitsAre(w >> 48);
    LowBitsAre(w >> 40);
    LowBitsAre(w >> 32);
    LowBitsAre(w >> 24);
    LowBitsAre(w >> 16);
    LowBitsAre(w >> 8);
    LowBitsAre(w);
  }

  lemma WordOfBytes(w: word)
    ensures JoinedBytes(ByteOfWord(w, 0), ByteOfWord(w, 1), ByteOfWord(w, 2), ByteOfWord(w, 3),
                        ByteOfWord(w, 4), ByteOfWord(w, 5), ByteOfWord(w, 6), ByteOfWord(w, 7)) == w
  {
    hide JoinedBytes, ByteOfWord;
    SplitsDown(w);
    JoinedIsWord(w);
  }

  /** Each eight bytes of the key, joined highest first, are one word of it. */
  lemma KeyIsBigEndian(seed: word, w: nat)
    requires w < 512
    ensures BigEndianWord(KeyOf(seed)[8 * w..8 * w + 8]) == SessionWord(seed, w)
  {
    hide JoinedBytes, ByteOfWord, SessionWord;
    var key := KeyOf(seed);
    var bytes := key[8 * w..8 * w + 8];
    forall b: nat | b < 8 ensures bytes[b] == ByteOfWord(SessionWord(seed, w), b) {
      assert bytes[b] == key[8 * w + b];
      ByteInWord(w, b);
    }
    WordOfBytes(SessionWord(seed, w));
  }

  lemma ByteInWord(w: nat, b: nat)
    requires b < 8
    ensures (8 * w + b) / 8 == w && (8 * w + b) % 8 == b
  {}

  method SessionWords(seed: word, words: seq<nat>) returns (rows: seq<word>)
    requires words != []
    ensures |rows| == |words| && forall k :: 0 <= k < |words| ==> rows[k] == SessionWord(seed, words[k])
  {
    hide Output;
    var first := Mersenne.Mersenne(seed, [0]);
    rows := Mersenne.Mersenne(first[0], seq(|words|, k requires 0 <= k < |words| => words[k] + 1));
  }

  method SessionKey(seed: word) returns (key: seq<byte>)
    ensures key == KeyOf(seed)
  {
    hide SessionWord, ByteOfWord;
    var words := SessionWords(seed, seq(KEY_SIZE / 8, w => w));
    key := seq(KEY_SIZE, i requires 0 <= i < KEY_SIZE => ByteOfWord(words[i / 8], i % 8));
  }

  /** The bytes of a word, highest first, each written out. */
  function BigEndianBytes(w: word): seq<byte> {
    [((w >> 56) & 0xFF) as byte, ((w >> 48) & 0xFF) as byte, ((w >> 40) & 0xFF) as byte,
     ((w >> 32) & 0xFF) as byte, ((w >> 24) & 0xFF) as byte, ((w >> 16) & 0xFF) as byte,
     ((w >> 8) & 0xFF) as byte, (w & 0xFF) as byte]
  }

  lemma BytesOfWord(w: word)
    ensures |BigEndianBytes(w)| == 8 && forall b :: 0 <= b < 8 ==> BigEndianBytes(w)[b] == ByteOfWord(w, b)
  {
    hide ByteOfWord;
    SplitsDown(w);
  }

  /** The key as the game makes it, from two reference generators: the first one's first number
      seeds the second, whose first number is passed over. */
  method GameKey(seed: word) returns (key: seq<byte>)
    ensures key == KeyOf(seed)
  {
    hide Output, BigEndianBytes, KeyOf;
    var first := new Reference(seed);
    var sessionSeed := first.Next();
    var second := new Reference(sessionSeed);
    var _ := second.Next();
    key := [];
    for w := 0 to 512
      invariant second.Valid() && second.seed == sessionSeed && second.Drawn() == w + 1
      invariant fresh(second) && fresh(second.mt)
      invariant key == KeyOf(seed)[..8 * w]
    {
      var number := second.Next();
      KeyGrows(seed, w);
      key := key + BigEndianBytes(number);
    }
  }

  lemma KeyGrows(seed: word, w: nat)
    requires w < 512
    ensures KeyOf(seed)[..8 * w + 8] == KeyOf(seed)[..8 * w] + BigEndianBytes(SessionWord(seed, w))
  {
    hide BigEndianBytes, ByteOfWord, SessionWord;
    var bytes := BigEndianBytes(SessionWord(seed, w));
    BytesOfWord(SessionWord(seed, w));
    forall b: nat | b < 8 ensures bytes[b] == KeyOf(seed)[8 * w + b] {
      ByteInWord(w, b);
    }
  }

  // ----- The four-byte filter

  predicate Accepts(message: seq<byte>, key: seq<byte>) {
    Parse(XorWith(message, key)).Some?
  }

  /** The magic bytes of a message at its four ends, in the order of `Ends`. */
  const MAGIC := MAGIC_START + MAGIC_END

  function Ends(size: nat): (ends: seq<nat>)
    requires size >= 2
    ensures |ends| == 4
  {
    [0, 1, size - 2, size - 1]
  }

  /** The key turns the message's byte at end `k` into its magic byte. */
  predicate EndMatches(message: seq<byte>, seed: word, k: nat)
    requires |message| >= 2 && k < 4
  {
    var end := Ends(|message|)[k];
    KeyByte(seed, end % KEY_SIZE) == message[end] ^ MAGIC[k]
  }

  /** The key turns the first two and last two bytes into the magic ones. */
  predicate PassesFilter(message: seq<byte>, seed: word)
    requires |message| >= 2
  {
    forall k :: 0 <= k < 4 ==> EndMatches(message, seed, k)
  }

  function Filtered(message: seq<byte>, candidates: seq<word>): seq<word>
    requires |message| >= 2
  {
    if candidates == [] then []
    else
      var last := candidates[|candidates| - 1];
      Filtered(message, candidates[..|candidates| - 1]) + if PassesFilter(message, last) then [last] else []
  }

  /** The four-byte test of one candidate, on the key words under those bytes alone. */
  method Matches(message: seq<byte>, seed: word) returns (matches: bool)
    requires |message| >= 2
    ensures matches == PassesFilter(message, seed)
  {
    hide SessionWord, ByteOfWord, EndMatches;
    var ends := Ends(|message|);
    var words := Sorted(set k | 0 <= k < 4 :: ends[k] % KEY_SIZE / 8);
    assert ends[0] % KEY_SIZE / 8 in words;
    var rows := SessionWords(seed, words);
    matches := true;
    for k := 0 to 4
      invariant matches == forall l :: 0 <= l < k ==> EndMatches(message, seed, l)
    {
      var position := ends[k] % KEY_SIZE;
      var row := IndexOf(words, position / 8);
      EndMatchesIs(message, seed, k);
      if ByteOfWord(rows[row], position % 8) != message[ends[k]] ^ MAGIC[k] {
        matches := false;
      }
    }
  }

  method IndexOf(words: seq<nat>, w: nat) returns (row: nat)
    requires w in words
    ensures row < |words| && words[row] == w
  {
    row := 0;
    while words[row] != w
      invariant row < |words| && w in words[row..]
      decreases |words| - row
    {
      row := row + 1;
    }
  }

  lemma EndMatchesIs(message: seq<byte>, seed: word, k: nat)
    requires |message| >= 2 && k < 4
    ensures var end := Ends(|message|)[k];
      EndMatches(message, seed, k)
      <==> ByteOfWord(SessionWord(seed, end % KEY_SIZE / 8), end % KEY_SIZE % 8) == message[end] ^ MAGIC[k]
  {
    hide SessionWord, ByteOfWord;
  }

  /** `matching_seeds`. */
  method MatchingSeeds(message: seq<byte>, candidates: seq<word>) returns (matching: seq<word>)
    requires |message| >= 2
    ensures matching == Filtered(message, candidates)
  {
    hide PassesFilter;
    matching := [];
    for k := 0 to |candidates|
      invariant matching == Filtered(message, candidates[..k])
    {
      assert candidates[..k + 1][..k] == candidates[..k];
      var matches := Matches(message, candidates[k]);
      if matches {
        matching := matching + [candidates[k]];
      }
    }
    assert candidates[..|candidates|] == candidates;
  }

  lemma ParsedEnds(plain: seq<byte>, k: nat)
    requires Parse(plain).Some? && k < 4
    ensures |plain| >= FRAMING_SIZE && plain[Ends(|plain|)[k]] == MAGIC[k]
  {
    var n := |plain|;
    assert plain[..2][0] == plain[0] && plain[..2][1] == plain[1];
    assert plain[n - 2..][0] == plain[n - 2] && plain[n - 2..][1] == plain[n - 1];
  }

  lemma PlainAt(message: seq<byte>, seed: word, end: nat)
    requires end < |message|
    ensures XorWith(message, KeyOf(seed))[end] == message[end] ^ KeyByte(seed, end % KEY_SIZE)
  {
    hide KeyByte;
  }

  /** The filter never drops a seed whose full key parses the message. */
  lemma FilterKeepsAccepted(message: seq<byte>, seed: word)
    requires Accepts(message, KeyOf(seed))
    ensures |message| >= FRAMING_SIZE && PassesFilter(message, seed)
  {
    hide KeyByte, KeyOf, Parse, XorWith, EndMatches;
    var plain := XorWith(message, KeyOf(seed));
    ParsedEnds(plain, 0);
    forall k | 0 <= k < 4 ensures EndMatches(message, seed, k) {
      ParsedEnds(plain, k);
      EndUnmasked(message, seed, k);
    }
  }

  lemma EndUnmasked(message: seq<byte>, seed: word, k: nat)
    requires |message| >= FRAMING_SIZE && k < 4
    requires XorWith(message, KeyOf(seed))[Ends(|message|)[k]] == MAGIC[k]
    ensures EndMatches(message, seed, k)
  {
    hide KeyByte, KeyOf, XorWith;
    var end := Ends(|message|)[k];
    PlainAt(message, seed, end);
    XorMoves(message[end], KeyByte(seed, end % KEY_SIZE), MAGIC[k]);
  }

  lemma XorMoves(m: byte, k: byte, p: byte)
    ensures m ^ k == p <==> k == m ^ p
  {}

  // ----- The clock values in search order

  /** `arange(1 - windowMs, windowMs)` stably sorted by distance: 0, -1, 1, -2, 2, ... */
  function Offsets(windowMs: nat): seq<int> {
    seq(if windowMs == 0 then 0 else 2 * windowMs - 1, k => if k % 2 == 1 then -((k + 1) / 2) else k / 2)
  }

  /** Strictly inside the window. */
  predicate Inside(offset: int, windowMs: nat) {
    Distance(offset) < windowMs
  }

  /** The offsets cover the open window once each, nearest first, and ties in `arange` order. */
  lemma OffsetsAreStablySorted(windowMs: nat)
    ensures forall o :: o in Offsets(windowMs) <==> Inside(o, windowMs)
    ensures forall k, l :: 0 <= k < l < |Offsets(windowMs)| ==>
      var o, p := Offsets(windowMs)[k], Offsets(windowMs)[l];
      Distance(o) < Distance(p) || (Distance(o) == Distance(p) && o < p)
  {
    hide Offsets;
    var offsets := Offsets(windowMs);
    forall o ensures o in offsets <==> Inside(o, windowMs) {
      OffsetsCover(windowMs, o);
    }
    forall k, l | 0 <= k < l < |offsets|
      ensures var o, p := offsets[k], offsets[l]; Distance(o) < Distance(p) || (Distance(o) == Distance(p) && o < p)
    {
      OffsetIs(windowMs, k);
      OffsetIs(windowMs, l);
    }
  }

  lemma OffsetIs(windowMs: nat, k: nat)
    requires k < |Offsets(windowMs)|
    ensures Offsets(windowMs)[k] == if k % 2 == 1 then -((k + 1) / 2) else k / 2
    ensures Inside(Offsets(windowMs)[k], windowMs)
  {}

  lemma OffsetsCover(windowMs: nat, o: int)
    ensures o in Offsets(windowMs) <==> Inside(o, windowMs)
  {
    var offsets := Offsets(windowMs);
    if Inside(o, windowMs) {
      var k := if o < 0 then -2 * o - 1 else 2 * o;
      assert offsets[k] == o;
    }
    if o in offsets {
      var k :| 0 <= k < |offsets| && offsets[k] == o;
      OffsetIs(windowMs, k);
    }
  }

  function Distance(o: int): nat {
    if o < 0 then -o else o
  }

  lemma OffsetDistance(windowMs: nat, k: nat)
    requires k < |Offsets(windowMs)|
    ensures Distance(Offsets(windowMs)[k]) == (k + 1) / 2
  {}

  /** The 32-bit int C# makes of a clock value. */
  function Int32(t: int): (i: int)
    ensures -0x8000_0000 <= i < 0x8000_0000 && (t - i) % 0x1_0000_0000 == 0
  {
    (t + 0x8000_0000) % 0x1_0000_0000 - 0x8000_0000
  }

  // ----- The candidates in search order

  /** Draw `n` of a client whose clock reads `time`. */
  function ClientOf(draw: Draws, time: int, n: nat): word {
    draw(Int32(time), n)
  }

  /** The session seed of two halves. */
  function SeedOf(client: word, server: word): word {
    client ^ server
  }

  /** Draws 0 to `n - 1` of every clock value, draw by draw. */
  function Clients(draw: Draws, sentMs: int, offsets: seq<int>, n: nat): seq<word> {
    if n == 0 then [] else Clients(draw, sentMs, offsets, n - 1) + ClientRow(draw, sentMs, offsets, n - 1)
  }

  function ClientRow(draw: Draws, sentMs: int, offsets: seq<int>, n: nat): seq<word> {
    seq(|offsets|, t requires 0 <= t < |offsets| => ClientOf(draw, sentMs + offsets[t], n))
  }

  /** The clients' halves under each server half, server by server. */
  function Candidates(clients: seq<word>, servers: seq<word>): seq<word> {
    if servers == [] then []
    else Candidates(clients, servers[..|servers| - 1]) + SeedRow(clients, servers[|servers| - 1])
  }

  function SeedRow(clients: seq<word>, server: word): seq<word> {
    seq(|clients|, c requires 0 <= c < |clients| => SeedOf(clients[c], server))
  }

  /** The offsets tried in the chunk that starts at `start`. */
  function Chunk(offsets: seq<int>, start: nat): seq<int>
    requires start <= |offsets|
  {
    offsets[start..if start + CHUNK_MS < |offsets| then start + CHUNK_MS else |offsets|]
  }

  function ChunkCandidates(draw: Draws, servers: seq<word>, sentMs: int, offsets: seq<int>): seq<word> {
    Candidates(Clients(draw, sentMs, offsets, CLIENT_DRAWS), servers)
  }

  /** The first candidate, in order, whose key parses the message. */
  function FirstAccepted(message: seq<byte>, candidates: seq<word>): Option<seq<byte>> {
    if candidates == [] then None
    else if Accepts(message, KeyOf(candidates[0])) then Some(KeyOf(candidates[0]))
    else FirstAccepted(message, candidates[1..])
  }

  /** The search from chunk to chunk. */
  function SearchFrom(message: seq<byte>, draw: Draws, servers: seq<word>, sentMs: int, offsets: seq<int>, start: nat)
    : Option<seq<byte>>
    requires start <= |offsets|
    decreases |offsets| - start
  {
    if start == |offsets| then None
    else
      var found := FirstAccepted(message, ChunkCandidates(draw, servers, sentMs, Chunk(offsets, start)));
      if found.Some? then found
      else SearchFrom(message, draw, servers, sentMs, offsets, start + |Chunk(offsets, start)|)
  }

  /** What `find_session_key` returns. */
  function SearchResult(message: seq<byte>, servers: seq<word>, sentMs: int, windowMs: nat, draw: Draws)
    : Option<seq<byte>>
  {
    SearchFrom(message, draw, servers, sentMs, Offsets(windowMs), 0)
  }

  method FindSessionKey(message: seq<byte>, servers: seq<word>, sentMs: int, windowMs: nat, draw: Draws)
    returns (found: Option<seq<byte>>)
    requires |message| >= 2 && (windowMs > 0 ==> servers != [])
    ensures found == SearchResult(message, servers, sentMs, windowMs, draw)
  {
    hide KeyOf, Accepts, ChunkCandidates, FirstAccepted, Filtered;
    var offsets := Offsets(windowMs);
    var start := 0;
    while start < |offsets|
      invariant start <= |offsets|
      invariant SearchFrom(message, draw, servers, sentMs, offsets, start)
             == SearchResult(message, servers, sentMs, windowMs, draw)
      decreases |offsets| - start
    {
      var chunk := Chunk(offsets, start);
      found := SearchChunk(message, servers, sentMs, chunk, draw);
      if found.Some? {
        return;
      }
      start := start + |chunk|;
    }
    found := None;
  }

  method SearchChunk(message: seq<byte>, servers: seq<word>, sentMs: int, offsets: seq<int>, draw: Draws)
    returns (found: Option<seq<byte>>)
    requires |message| >= 2
    ensures found == FirstAccepted(message, ChunkCandidates(draw, servers, sentMs, offsets))
  {
    hide KeyOf, Accepts, PassesFilter, Filtered, ChunkCandidates;
    var candidates := ChunkCandidates(draw, servers, sentMs, offsets);
    var seeds := MatchingSeeds(message, candidates);
    FilterKeepsFirst(message, candidates);
    for k := 0 to |seeds|
      invariant FirstAccepted(message, seeds) == FirstAccepted(message, seeds[k..])
    {
      assert seeds[k..][0] == seeds[k] && seeds[k..][1..] == seeds[k + 1..];
      var key := SessionKey(seeds[k]);
      if Accepts(message, key) {
        return Some(key);
      }
    }
    found := None;
  }

  lemma {:induction false} FirstAcceptedConcat(message: seq<byte>, a: seq<word>, b: seq<word>)
    ensures FirstAccepted(message, a + b)
         == if FirstAccepted(message, a).Some? then FirstAccepted(message, a) else FirstAccepted(message, b)
  {
    hide KeyOf, Accepts;
    if a == [] {
      assert a + b == b;
    } else {
      assert (a + b)[1..] == a[1..] + b;
      FirstAcceptedConcat(message, a[1..], b);
    }
  }

  /** Filtering first changes nothing about which key is found. */
  lemma {:induction false} FilterKeepsFirst(message: seq<byte>, candidates: seq<word>)
    requires |message| >= 2
    ensures FirstAccepted(message, Filtered(message, candidates)) == FirstAccepted(message, candidates)
  {
    hide KeyOf, Accepts, PassesFilter;
    if candidates != [] {
      var front, last := candidates[..|candidates| - 1], candidates[|candidates| - 1];
      FilterKeepsFirst(message, front);
      assert candidates == front + [last];
      FirstAcceptedConcat(message, front, [last]);
      FirstAcceptedConcat(message, Filtered(message, front), [last]);
      if Accepts(message, KeyOf(last)) {
        FilterKeepsAccepted(message, last);
      } else {
        assert [last][1..] == [];
        assert Filtered(message, front) + [] == Filtered(message, front);
      }
    }
  }

  // ----- Soundness and completeness

  /** The seed of one client draw and one server half. */
  function Candidate(draw: Draws, sentMs: int, offset: int, n: nat, server: word): word {
    SeedOf(ClientOf(draw, sentMs + offset, n), server)
  }

  lemma {:induction false} ClientListed(draw: Draws, sentMs: int, offsets: seq<int>, upTo: nat, o: int, n: nat)
    requires o in offsets && n < upTo
    ensures ClientOf(draw, sentMs + o, n) in Clients(draw, sentMs, offsets, upTo)
  {
    hide ClientOf;
    if n == upTo - 1 {
      var t :| 0 <= t < |offsets| && offsets[t] == o;
      assert ClientRow(draw, sentMs, offsets, n)[t] == ClientOf(draw, sentMs + o, n);
      assert ClientOf(draw, sentMs + o, n) in ClientRow(draw, sentMs, offsets, n);
    } else {
      ClientListed(draw, sentMs, offsets, upTo - 1, o, n);
    }
  }

  lemma {:induction false} ListedClient(draw: Draws, sentMs: int, offsets: seq<int>, upTo: nat, client: word)
    returns (o: int, n: nat)
    requires client in Clients(draw, sentMs, offsets, upTo)
    ensures o in offsets && n < upTo && client == ClientOf(draw, sentMs + o, n)
  {
    hide ClientOf;
    if client in ClientRow(draw, sentMs, offsets, upTo - 1) {
      var t :| 0 <= t < |offsets| && ClientRow(draw, sentMs, offsets, upTo - 1)[t] == client;
      return offsets[t], upTo - 1;
    }
    o, n := ListedClient(draw, sentMs, offsets, upTo - 1, client);
  }

  lemma {:induction false} CandidateListed(clients: seq<word>, servers: seq<word>, client: word, server: word)
    requires client in clients && server in servers
    ensures SeedOf(client, server) in Candidates(clients, servers)
  {
    hide SeedOf;
    if server == servers[|servers| - 1] {
      var c :| 0 <= c < |clients| && clients[c] == client;
      assert SeedRow(clients, server)[c] == SeedOf(client, server);
      assert SeedOf(client, server) in SeedRow(clients, server);
    } else {
      CandidateListed(clients, servers[..|servers| - 1], client, server);
    }
  }

  lemma {:induction false} ListedCandidate(clients: seq<word>, servers: seq<word>, seed: word)
    returns (client: word, server: word)
    requires seed in Candidates(clients, servers)
    ensures client in clients && server in servers && seed == SeedOf(client, server)
  {
    hide SeedOf;
    server := servers[|servers| - 1];
    if seed in SeedRow(clients, server) {
      var c :| 0 <= c < |clients| && SeedRow(clients, server)[c] == seed;
      return clients[c], server;
    }
    client, server := ListedCandidate(clients, servers[..|servers| - 1], seed);
  }

  lemma {:induction false} FirstAcceptedIsSome(message: seq<byte>, candidates: seq<word>)
    ensures FirstAccepted(message, candidates).Some? <==>
      exists seed :: seed in candidates && Accepts(message, KeyOf(seed))
    ensures FirstAccepted(message, candidates).Some? ==>
      exists seed :: seed in candidates && Accepts(message, KeyOf(seed))
        && FirstAccepted(message, candidates) == Some(KeyOf(seed))
  {
    hide KeyOf, Accepts;
    if candidates != [] {
      FirstAcceptedIsSome(message, candidates[1..]);
      assert forall seed :: seed in candidates <==> seed == candidates[0] || seed in candidates[1..];
    }
  }

  /** A clock offset, draw and server half whose key parses the message. */
  ghost predicate Works(message: seq<byte>, draw: Draws, servers: seq<word>, sentMs: int, o: int, n: nat,
                        server: word) {
    n < CLIENT_DRAWS && server in servers && Accepts(message, KeyOf(Candidate(draw, sentMs, o, n, server)))
  }

  lemma ChunkFinds(message: seq<byte>, draw: Draws, servers: seq<word>, sentMs: int, offsets: seq<int>)
    ensures var found := FirstAccepted(message, ChunkCandidates(draw, servers, sentMs, offsets));
      && (found.Some? <==> exists o, n, server :: o in offsets && Works(message, draw, servers, sentMs, o, n, server))
      && (found.Some? ==> exists o, n, server ::
            o in offsets && Works(message, draw, servers, sentMs, o, n, server)
            && found == Some(KeyOf(Candidate(draw, sentMs, o, n, server))))
  {
    hide KeyOf, Accepts, ClientOf, SeedOf, FirstAccepted;
    var clients := Clients(draw, sentMs, offsets, CLIENT_DRAWS);
    var candidates := Candidates(clients, servers);
    FirstAcceptedIsSome(message, candidates);
    forall o, n, server | o in offsets && Works(message, draw, servers, sentMs, o, n, server)
      ensures Candidate(draw, sentMs, o, n, server) in candidates
    {
      ClientListed(draw, sentMs, offsets, CLIENT_DRAWS, o, n);
      CandidateListed(clients, servers, ClientOf(draw, sentMs + o, n), server);
    }
    var found := FirstAccepted(message, candidates);
    if found.Some? {
      var seed :| seed in candidates && Accepts(message, KeyOf(seed)) && found == Some(KeyOf(seed));
      var client, server := ListedCandidate(clients, servers, seed);
      var o, n := ListedClient(draw, sentMs, offsets, CLIENT_DRAWS, client);
      assert Works(message, draw, servers, sentMs, o, n, server);
    }
  }

  lemma {:induction false} SearchFinds(message: seq<byte>, draw: Draws, servers: seq<word>, sentMs: int,
                                       offsets: seq<int>, start: nat)
    requires start <= |offsets|
    ensures var found := SearchFrom(message, draw, servers, sentMs, offsets, start);
      && (found.Some? <==> exists o, n, server ::
            o in offsets[start..] && Works(message, draw, servers, sentMs, o, n, server))
      && (found.Some? ==> exists o, n, server ::
            o in offsets[start..] && Works(message, draw, servers, sentMs, o, n, server)
            && found == Some(KeyOf(Candidate(draw, sentMs, o, n, server))))
    decreases |offsets| - start
  {
    hide KeyOf, Works, Candidate, ChunkCandidates, FirstAccepted;
    if start < |offsets| {
      var chunk := Chunk(offsets, start);
      ChunkFinds(message, draw, servers, sentMs, chunk);
      SearchFinds(message, draw, servers, sentMs, offsets, start + |chunk|);
      assert offsets[start..] == chunk + offsets[start + |chunk|..];
    }
  }

  /** `find_session_key` finds a key exactly when some clock strictly inside the window, with one of
      its five draws and one server half, gives a key that parses the message; and the key it
      returns is one of those. */
  lemma SearchIsSoundAndComplete(message: seq<byte>, servers: seq<word>, sentMs: int, windowMs: nat, draw: Draws)
    requires sentMs < CLOCK_LIMIT
    ensures var found := SearchResult(message, servers, sentMs, windowMs, draw);
      && (found.Some? <==> exists o, n, server ::
            Inside(o, windowMs) && Works(message, draw, servers, sentMs, o, n, server))
      && (found.Some? ==> Accepts(message, found.value))
      && (found.Some? ==> exists o, n, server ::
            Inside(o, windowMs) && Works(message, draw, servers, sentMs, o, n, server)
            && found == Some(KeyOf(Candidate(draw, sentMs, o, n, server))))
  {
    hide KeyOf, Candidate, SearchFrom, Accepts;
    var offsets := Offsets(windowMs);
    OffsetsAreStablySorted(windowMs);
    SearchFinds(message, draw, servers, sentMs, offsets, 0);
    assert offsets[0..] == offsets;
  }

  /** The key of a client whose clock read `t` and whose half is its draw `n`. */
  ghost function SharedKey(draw: Draws, t: int, n: nat, server: word): (key: seq<byte>) {
    KeyOf(draw(Int32(t), n) ^ server)
  }

  /** A clock within the window of the reply, one of its first five draws and a server half share a
      key that parses the message. */
  ghost predicate Shares(message: seq<byte>, draw: Draws, servers: seq<word>, sentMs: int, windowMs: nat,
                         t: int, n: nat, server: word) {
    && sentMs - windowMs < t < sentMs + windowMs && n < 5 && server in servers
    && Parse(XorWith(message, SharedKey(draw, t, n, server))).Some?
  }

  /** In terms of clocks: a key is found exactly if some client shares one that parses the message,
      and then it is such a client's key. */
  lemma SearchFindsTheClient(message: seq<byte>, servers: seq<word>, sentMs: int, windowMs: nat, draw: Draws)
    requires sentMs < CLOCK_LIMIT
    ensures var found := SearchResult(message, servers, sentMs, windowMs, draw);
      && (found.Some? <==> exists t: int, n: nat, server ::
            Shares(message, draw, servers, sentMs, windowMs, t, n, server))
      && (found.Some? ==> exists t: int, n: nat, server ::
            Shares(message, draw, servers, sentMs, windowMs, t, n, server)
            && found == Some(SharedKey(draw, t, n, server)))
  {
    hide KeyOf, SearchResult, Works, Shares, Candidate, SharedKey;
    SearchIsSoundAndComplete(message, servers, sentMs, windowMs, draw);
    forall t: int, n: nat, server | Shares(message, draw, servers, sentMs, windowMs, t, n, server)
      ensures Inside(t - sentMs, windowMs) && Works(message, draw, servers, sentMs, t - sentMs, n, server)
    {
      SharesIsWorks(message, draw, servers, sentMs, windowMs, t - sentMs, n, server);
      assert sentMs + (t - sentMs) == t;
    }
    var found := SearchResult(message, servers, sentMs, windowMs, draw);
    if found.Some? {
      var o, n, server :| Inside(o, windowMs) && Works(message, draw, servers, sentMs, o, n, server)
        && found == Some(KeyOf(Candidate(draw, sentMs, o, n, server)));
      SharesIsWorks(message, draw, servers, sentMs, windowMs, o, n, server);
      assert Shares(message, draw, servers, sentMs, windowMs, sentMs + o, n, server);
    }
  }

  lemma SharesIsWorks(message: seq<byte>, draw: Draws, servers: seq<word>, sentMs: int, windowMs: nat, o: int,
                      n: nat, server: word)
    ensures SharedKey(draw, sentMs + o, n, server) == KeyOf(Candidate(draw, sentMs, o, n, server))
    ensures Shares(message, draw, servers, sentMs, windowMs, sentMs + o, n, server) <==>
      Inside(o, windowMs) && Works(message, draw, servers, sentMs, o, n, server)
  {
    hide KeyOf, Parse, XorWith, Int32;
  }
}
