/** Which key the search of capture/crypto.py returns when several would do: the order it takes the
    clock values, draws and server halves in, and what becomes of "nearest first". */
module SearchOrder {
  import opened Bytes
  import opened Message
  import opened Mersenne
  import opened SessionKey

  /** The arguments of one search. */
  datatype Query = Query(message: seq<byte>, servers: seq<word>, sentMs: int, windowMs: nat, draw: Draws)
  {
    /** The reply's time is one the source can add to its offsets. */
    predicate InRange() {
      sentMs < CLOCK_LIMIT
    }
  }

  /** A candidate: the position of its clock among the offsets, of its server half, and its draw. */
  datatype Place = Place(p: nat, server: nat, n: nat)

  ghost predicate Listed(q: Query, at: Place) {
    at.p < |Offsets(q.windowMs)| && at.server < |q.servers| && at.n < 5
  }

  ghost function SeedAt(q: Query, at: Place): word
    requires Listed(q, at)
  {
    Candidate(q.draw, q.sentMs, Offsets(q.windowMs)[at.p], at.n, q.servers[at.server])
  }

  ghost predicate WorksAt(q: Query, at: Place) {
    Listed(q, at) && Accepts(q.message, KeyOf(SeedAt(q, at)))
  }

  /** By chunks of 3000 clocks; within one, by server half, then by draw, then by clock. */
  ghost predicate Earlier(a: Place, b: Place) {
    var i, j := a.p / 3000, b.p / 3000;
    i < j || (i == j && (a.server < b.server || (a.server == b.server && (a.n < b.n || (a.n == b.n && a.p < b.p)))))
  }

  /** The candidate that works and that no other that works comes before. */
  ghost predicate IsFirst(q: Query, at: Place) {
    WorksAt(q, at) && forall b :: WorksAt(q, b) ==> !Earlier(b, at)
  }

  function Found(q: Query): Option<seq<byte>> {
    SearchResult(q.message, q.servers, q.sentMs, q.windowMs, q.draw)
  }

  // ----- Within a chunk

  /** A candidate given by its clock offset and halves rather than by positions. */
  ghost predicate Fits(q: Query, o: int, n: nat, server: word) {
    Accepts(q.message, KeyOf(Candidate(q.draw, q.sentMs, o, n, server)))
  }

  /** None of the first `upTo` draws fits under the server half. */
  ghost predicate NoDraw(q: Query, offsets: seq<int>, upTo: nat, server: word) {
    forall o, n: nat :: o in offsets && n < upTo ==> !Fits(q, o, n, server)
  }

  ghost predicate NoServer(q: Query, offsets: seq<int>, servers: seq<word>) {
    forall server :: server in servers ==> NoDraw(q, offsets, CLIENT_DRAWS, server)
  }

  ghost predicate NoClock(q: Query, offsets: seq<int>, n: nat, server: word) {
    forall s :: 0 <= s < |offsets| ==> !Fits(q, offsets[s], n, server)
  }

  lemma {:induction false} FirstOf(message: seq<byte>, candidates: seq<word>, k: nat)
    requires k < |candidates| && Accepts(message, KeyOf(candidates[k]))
    requires forall l :: 0 <= l < k ==> !Accepts(message, KeyOf(candidates[l]))
    ensures FirstAccepted(message, candidates) == Some(KeyOf(candidates[k]))
    decreases k
  {
    hide Accepts, KeyOf;
    if k > 0 {
      assert !Accepts(message, KeyOf(candidates[0]));
      assert forall l :: 0 <= l < k - 1 ==> candidates[1..][l] == candidates[l + 1];
      FirstOf(message, candidates[1..], k - 1);
    }
  }

  /** Without a client that fits under the server half, nothing of its row is accepted. */
  lemma NoneInRow(q: Query, offsets: seq<int>, upTo: nat, server: word)
    requires NoDraw(q, offsets, upTo, server)
    ensures FirstAccepted(q.message, SeedRow(Clients(q.draw, q.sentMs, offsets, upTo), server)) == None
  {
    hide Accepts, KeyOf, ClientOf, SeedOf;
    var clients := Clients(q.draw, q.sentMs, offsets, upTo);
    var row := SeedRow(clients, server);
    forall seed | seed in row ensures !Accepts(q.message, KeyOf(seed)) {
      var c :| 0 <= c < |row| && row[c] == seed;
      var o, n := ListedClient(q.draw, q.sentMs, offsets, upTo, clients[c]);
      assert !Fits(q, o, n, server);
    }
    FirstAcceptedIsSome(q.message, row);
  }

  lemma SeedRowConcat(a: seq<word>, b: seq<word>, server: word)
    ensures SeedRow(a + b, server) == SeedRow(a, server) + SeedRow(b, server)
  {}

  /** Under one server half the first draw with a clock that fits is taken, at its first clock. */
  lemma {:induction false} FirstDraw(q: Query, offsets: seq<int>, upTo: nat, server: word, n: nat, t: nat)
    requires n < upTo && t < |offsets| && Fits(q, offsets[t], n, server)
    requires NoDraw(q, offsets, n, server) && NoClock(q, offsets[..t], n, server)
    ensures FirstAccepted(q.message, SeedRow(Clients(q.draw, q.sentMs, offsets, upTo), server))
         == Some(KeyOf(Candidate(q.draw, q.sentMs, offsets[t], n, server)))
    decreases upTo
  {
    hide Accepts, KeyOf, ClientOf, SeedOf, FirstAccepted;
    var before, last := Clients(q.draw, q.sentMs, offsets, upTo - 1), ClientRow(q.draw, q.sentMs, offsets, upTo - 1);
    SeedRowConcat(before, last, server);
    FirstAcceptedConcat(q.message, SeedRow(before, server), SeedRow(last, server));
    if n < upTo - 1 {
      FirstDraw(q, offsets, upTo - 1, server, n, t);
    } else {
      NoneInRow(q, offsets, n, server);
      var row := SeedRow(last, server);
      forall s | 0 <= s < |offsets|
        ensures row[s] == Candidate(q.draw, q.sentMs, offsets[s], n, server)
      {}
      assert forall s :: 0 <= s < t ==> offsets[..t][s] == offsets[s];
      FirstOf(q.message, row, t);
    }
  }

  lemma FitsIfWorks(q: Query, servers: seq<word>, o: int, n: nat, server: word)
    ensures Works(q.message, q.draw, servers, q.sentMs, o, n, server) <==>
      n < CLIENT_DRAWS && server in servers && Fits(q, o, n, server)
  {}

  lemma NoneUnder(q: Query, offsets: seq<int>, servers: seq<word>)
    requires NoServer(q, offsets, servers)
    ensures FirstAccepted(q.message, ChunkCandidates(q.draw, servers, q.sentMs, offsets)) == None
  {
    hide Accepts, KeyOf, Candidate, FirstAccepted, ChunkCandidates;
    ChunkFinds(q.message, q.draw, servers, q.sentMs, offsets);
    if FirstAccepted(q.message, ChunkCandidates(q.draw, servers, q.sentMs, offsets)).Some? {
      var o, n, server :| o in offsets && Works(q.message, q.draw, servers, q.sentMs, o, n, server);
      FitsIfWorks(q, servers, o, n, server);
    }
  }

  /** In a chunk the first server half with a candidate that fits is taken. */
  lemma {:induction false} FirstServer(q: Query, offsets: seq<int>, servers: seq<word>, i: nat, n: nat, t: nat)
    requires i < |servers| && n < CLIENT_DRAWS && t < |offsets| && Fits(q, offsets[t], n, servers[i])
    requires NoServer(q, offsets, servers[..i]) && NoDraw(q, offsets, n, servers[i])
    requires NoClock(q, offsets[..t], n, servers[i])
    ensures FirstAccepted(q.message, ChunkCandidates(q.draw, servers, q.sentMs, offsets))
         == Some(KeyOf(Candidate(q.draw, q.sentMs, offsets[t], n, servers[i])))
    decreases |servers|
  {
    hide Fits, KeyOf, Candidate, FirstAccepted, Clients, SeedRow;
    var front, last := servers[..|servers| - 1], servers[|servers| - 1];
    var clients := Clients(q.draw, q.sentMs, offsets, CLIENT_DRAWS);
    FirstAcceptedConcat(q.message, Candidates(clients, front), SeedRow(clients, last));
    if i < |servers| - 1 {
      assert front[..i] == servers[..i];
      FirstServer(q, offsets, front, i, n, t);
    } else {
      NoneUnder(q, offsets, front);
      FirstDraw(q, offsets, CLIENT_DRAWS, last, n, t);
    }
  }

  // ----- From chunk to chunk

  /** The candidates of a chunk by their positions. */
  lemma ChunkPlace(q: Query, start: nat, o: int, n: nat, s: word) returns (at: Place)
    requires start % CHUNK_MS == 0 && start <= |Offsets(q.windowMs)|
    requires o in Chunk(Offsets(q.windowMs), start) && n < CLIENT_DRAWS && s in q.servers
    ensures Listed(q, at) && at.p / CHUNK_MS == start / CHUNK_MS && start <= at.p
    ensures at.n == n && q.servers[at.server] == s
    ensures WorksAt(q, at) <==> Fits(q, o, n, s)
  {
    hide Accepts, KeyOf, Candidate, Offsets;
    var chunk := Chunk(Offsets(q.windowMs), start);
    var t :| 0 <= t < |chunk| && chunk[t] == o;
    var i :| 0 <= i < |q.servers| && q.servers[i] == s;
    at := Place(start + t, i, n);
  }

  /** What is not earlier than the first candidate that works does not work in its chunk before it. */
  lemma ChunkBefore(q: Query, at: Place, start: nat)
    requires IsFirst(q, at) && start % CHUNK_MS == 0 && start <= at.p < start + CHUNK_MS
    ensures var chunk, t, server := Chunk(Offsets(q.windowMs), start), at.p - start, q.servers[at.server];
      && t < |chunk| && chunk[t] == Offsets(q.windowMs)[at.p] && Fits(q, chunk[t], at.n, server)
      && NoServer(q, chunk, q.servers[..at.server]) && NoDraw(q, chunk, at.n, server)
      && NoClock(q, chunk[..t], at.n, server)
  {
    hide Accepts, KeyOf, Candidate, Offsets, Fits, WorksAt;
    FirstWorks(q, at);
    var chunk, t, server := Chunk(Offsets(q.windowMs), start), at.p - start, q.servers[at.server];
    forall s | s in q.servers[..at.server] ensures NoDraw(q, chunk, CLIENT_DRAWS, s) {
      forall o, n: nat | o in chunk && n < CLIENT_DRAWS ensures !Fits(q, o, n, s) {
        var i :| 0 <= i < at.server && q.servers[..at.server][i] == s;
        var k :| 0 <= k < |chunk| && chunk[k] == o;
        NotBefore(q, at, Place(start + k, i, n));
      }
    }
    forall o, n: nat | o in chunk && n < at.n ensures !Fits(q, o, n, server) {
      var k :| 0 <= k < |chunk| && chunk[k] == o;
      NotBefore(q, at, Place(start + k, at.server, n));
    }
    forall k | 0 <= k < t ensures !Fits(q, chunk[..t][k], at.n, server) {
      NotBefore(q, at, Place(start + k, at.server, at.n));
    }
  }

  lemma FirstWorks(q: Query, at: Place)
    requires IsFirst(q, at)
    ensures Listed(q, at) && Fits(q, Offsets(q.windowMs)[at.p], at.n, q.servers[at.server])
  {}

  lemma NotBefore(q: Query, at: Place, b: Place)
    requires IsFirst(q, at) && Listed(q, b) && Earlier(b, at)
    ensures !Fits(q, Offsets(q.windowMs)[b.p], b.n, q.servers[b.server])
  {
    assert WorksAt(q, b) <==> Fits(q, Offsets(q.windowMs)[b.p], b.n, q.servers[b.server]);
  }

  lemma NoneBefore(q: Query, at: Place, start: nat)
    requires IsFirst(q, at) && start % CHUNK_MS == 0 && start + CHUNK_MS <= at.p
    ensures start <= |Offsets(q.windowMs)|
    ensures FirstAccepted(q.message, ChunkCandidates(q.draw, q.servers, q.sentMs, Chunk(Offsets(q.windowMs), start)))
         == None
  {
    hide Accepts, KeyOf, Candidate, Offsets, FirstAccepted, ChunkCandidates, Works, Fits, WorksAt;
    FirstWorks(q, at);
    var chunk := Chunk(Offsets(q.windowMs), start);
    ChunkFinds(q.message, q.draw, q.servers, q.sentMs, chunk);
    if FirstAccepted(q.message, ChunkCandidates(q.draw, q.servers, q.sentMs, chunk)).Some? {
      var o, n, s :| o in chunk && Works(q.message, q.draw, q.servers, q.sentMs, o, n, s);
      FitsIfWorks(q, q.servers, o, n, s);
      var b := ChunkPlace(q, start, o, n, s);
    }
  }

  lemma {:induction false} SearchReaches(q: Query, at: Place, start: nat)
    requires IsFirst(q, at) && start % CHUNK_MS == 0 && start <= at.p
    ensures Listed(q, at)
    ensures SearchFrom(q.message, q.draw, q.servers, q.sentMs, Offsets(q.windowMs), start) == Some(KeyOf(SeedAt(q, at)))
    decreases at.p - start
  {
    hide Accepts, KeyOf, Candidate, Offsets, FirstAccepted, ChunkCandidates, Fits, WorksAt;
    FirstWorks(q, at);
    if start + CHUNK_MS <= at.p {
      NoneBefore(q, at, start);
      SearchReaches(q, at, start + CHUNK_MS);
    } else {
      ChunkBefore(q, at, start);
      var chunk := Chunk(Offsets(q.windowMs), start);
      FirstServer(q, chunk, q.servers, at.server, at.n, at.p - start);
    }
  }

  // ----- The main results

  lemma {:induction false} FirstExists(q: Query, at: Place) returns (first: Place)
    requires WorksAt(q, at)
    ensures IsFirst(q, first)
    decreases at.p / CHUNK_MS, at.server, at.n, at.p
  {
    hide WorksAt;
    if b :| WorksAt(q, b) && Earlier(b, at) {
      first := FirstExists(q, b);
    } else {
      first := at;
    }
  }

  /** `find_session_key` returns a key exactly if some candidate works, and then the key of the one
      that comes first: chunk by chunk, and in a chunk by server half, then draw, then clock. There
      is only one such candidate. */
  lemma SearchReturnsFirst(q: Query)
    requires q.InRange()
    ensures Found(q).Some? <==> exists at :: WorksAt(q, at)
    ensures Found(q).Some? ==> exists at :: IsFirst(q, at)
    ensures forall at :: IsFirst(q, at) ==> Listed(q, at) && Found(q) == Some(KeyOf(SeedAt(q, at)))
    ensures forall at, b :: IsFirst(q, at) && IsFirst(q, b) ==> at == b
  {
    hide Accepts, KeyOf, SeedAt, SearchFrom, Offsets;
    forall at | IsFirst(q, at) ensures Listed(q, at) && Found(q) == Some(KeyOf(SeedAt(q, at))) {
      SearchReaches(q, at, 0);
    }
    if at :| WorksAt(q, at) {
      var first := FirstExists(q, at);
    } else {
      NothingWorks(q);
    }
  }

  lemma NothingWorks(q: Query)
    requires forall at :: !WorksAt(q, at)
    ensures Found(q) == None
  {
    hide Accepts, KeyOf, Candidate, SearchFrom, Offsets, Works, WorksAt, Fits;
    var offsets := Offsets(q.windowMs);
    SearchFinds(q.message, q.draw, q.servers, q.sentMs, offsets, 0);
    assert offsets[0..] == offsets;
    if Found(q).Some? {
      var o, n, s :| o in offsets && Works(q.message, q.draw, q.servers, q.sentMs, o, n, s);
      FitsIfWorks(q, q.servers, o, n, s);
      var at := PlaceOf(q, o, n, s);
    }
  }

  lemma PlaceOf(q: Query, o: int, n: nat, s: word) returns (at: Place)
    requires o in Offsets(q.windowMs) && n < CLIENT_DRAWS && s in q.servers
    ensures Listed(q, at) && Offsets(q.windowMs)[at.p] == o && at.n == n && q.servers[at.server] == s
    ensures WorksAt(q, at) <==> Fits(q, o, n, s)
  {
    hide Accepts, KeyOf, Candidate, Offsets;
    var p :| 0 <= p < |Offsets(q.windowMs)| && Offsets(q.windowMs)[p] == o;
    var i :| 0 <= i < |q.servers| && q.servers[i] == s;
    at := Place(p, i, n);
  }

  // ----- Nearest first

  ghost function Away(q: Query, at: Place): nat
    requires Listed(q, at)
  {
    Distance(Offsets(q.windowMs)[at.p])
  }

  /** A candidate that works and whose clock is as near as that of any other that works. */
  ghost predicate IsNearest(q: Query, at: Place) {
    WorksAt(q, at) && forall b :: WorksAt(q, b) ==> Away(q, at) <= Away(q, b)
  }

  /** A server half, or a draw under the same one, that a chunk takes before another. */
  ghost predicate HalvesBefore(a: Place, b: Place) {
    a.server < b.server || (a.server == b.server && a.n < b.n)
  }

  /** In its chunk no candidate with a farther clock works under earlier halves. */
  ghost predicate Unrivalled(q: Query, at: Place)
    requires Listed(q, at)
  {
    forall b :: WorksAt(q, b) && b.p / 3000 == at.p / 3000 && Away(q, b) > Away(q, at) ==> !HalvesBefore(b, at)
  }

  lemma AwayGrows(q: Query, a: Place, b: Place)
    requires Listed(q, a) && Listed(q, b)
    ensures Away(q, a) < Away(q, b) ==> a.p < b.p
    ensures a.p <= b.p ==> Away(q, a) <= Away(q, b)
    ensures a.p / CHUNK_MS <= b.p / CHUNK_MS ==> Away(q, a) <= Away(q, b) + CHUNK_MS / 2
  {
    OffsetDistance(q.windowMs, a.p);
    OffsetDistance(q.windowMs, b.p);
  }

  /** The key returned is that of a nearest clock exactly if some nearest candidate has no rival: no
      farther clock of its chunk that works under an earlier server half, or an earlier draw of the
      same one. */
  lemma NearestIsTakenIff(q: Query, first: Place)
    requires IsFirst(q, first)
    ensures IsNearest(q, first) <==> exists at :: IsNearest(q, at) && Unrivalled(q, at)
  {
    hide Accepts, KeyOf, SeedAt, Away;
    if IsNearest(q, first) {
      forall b | WorksAt(q, b) && b.p / CHUNK_MS == first.p / CHUNK_MS && Away(q, b) > Away(q, first)
        ensures !HalvesBefore(b, first)
      {
        assert !Earlier(b, first);
      }
      assert Unrivalled(q, first);
    } else if at :| IsNearest(q, at) && Unrivalled(q, at) {
      UnrivalledIsTaken(q, first, at);
    }
  }

  lemma UnrivalledIsTaken(q: Query, first: Place, at: Place)
    requires IsFirst(q, first) && IsNearest(q, at) && Unrivalled(q, at)
    ensures IsNearest(q, first)
  {
    hide Accepts, KeyOf, SeedAt, Away;
    AwayGrows(q, first, at);
    AwayGrows(q, at, first);
  }

  /** Two cases in which the nearest clock is taken whatever the keys are: a window of one clock; and
      one server half with a client that takes the same draw at every clock that works. */
  lemma NearestIsTaken(q: Query, first: Place, n: nat)
    requires IsFirst(q, first)
    requires q.windowMs <= 1 || (|q.servers| == 1 && forall at :: WorksAt(q, at) ==> at.n == n)
    ensures IsNearest(q, first)
  {
    hide Accepts, KeyOf, SeedAt, Away;
    forall b | WorksAt(q, b) ensures Away(q, first) <= Away(q, b) {
      assert !Earlier(b, first);
      AwayGrows(q, first, b);
    }
  }

  /** Nearest first from chunk to chunk: the clock taken is never more than half a chunk farther from
      the reply than any that works. */
  lemma TakenIsNear(q: Query, first: Place, at: Place)
    requires IsFirst(q, first) && WorksAt(q, at)
    ensures Away(q, first) <= Away(q, at) + 1500
  {
    assert !Earlier(at, first);
    AwayGrows(q, first, at);
  }

  // ----- Whether a farther clock, or another key than the nearest clock's, can come back

  /** The key returned is not that of any nearest candidate. */
  ghost predicate ReturnsFartherKey(q: Query) {
    q.InRange() && Found(q).Some? && forall at :: IsNearest(q, at) ==> Found(q) != Some(KeyOf(SeedAt(q, at)))
  }

  /** The message parses under the different keys of two seeds, and not under that of a third. */
  ghost predicate Ambiguous(message: seq<byte>, near: word, far: word, none: word) {
    && Accepts(message, KeyOf(near)) && Accepts(message, KeyOf(far)) && KeyOf(near) != KeyOf(far)
    && !Accepts(message, KeyOf(none))
  }

  /** A client that draws a seed that does not work and then one that does at the reply's clock, and
      one that works at every other. */
  function RivalDraws(near: word, far: word, none: word): Draws {
    (t: int, n: nat) => if t != 0 then far else if n == 0 then none else near
  }

  lemma {:induction false} NearestExists(q: Query, at: Place) returns (nearest: Place)
    requires WorksAt(q, at)
    ensures IsNearest(q, nearest)
    decreases Away(q, at)
  {
    hide Accepts, KeyOf, SeedAt, Away;
    if b :| WorksAt(q, b) && Away(q, b) < Away(q, at) {
      nearest := NearestExists(q, b);
    } else {
      nearest := at;
    }
  }

  /** When the search returns a farther key, a nearer clock was tried under the same halves first,
      in vain. */
  lemma FartherKeyIsAmbiguous(q: Query) returns (near: word, far: word, none: word)
    requires ReturnsFartherKey(q)
    ensures Ambiguous(q.message, near, far, none)
  {
    hide Accepts, KeyOf, SeedAt, Away, Found;
    SearchReturnsFirst(q);
    var first :| IsFirst(q, first);
    var nearest := NearestExists(q, first);
    none := TriedInVain(q, first, nearest);
    near, far := SeedAt(q, nearest), SeedAt(q, first);
  }

  /** A clock nearer than the one taken was tried before with the same halves, and did not work. */
  lemma TriedInVain(q: Query, first: Place, nearest: Place) returns (none: word)
    requires IsFirst(q, first) && !IsNearest(q, first) && IsNearest(q, nearest)
    ensures Accepts(q.message, KeyOf(SeedAt(q, first))) && !Accepts(q.message, KeyOf(none))
  {
    hide Accepts, KeyOf, SeedAt, Away;
    var before := Place(nearest.p, first.server, first.n);
    none := SeedAt(q, before);
    AwayGrows(q, first, nearest);
    assert WorksAt(q, before) ==> !Earlier(before, first);
  }

  lemma RivalSeeds(q: Query, near: word, far: word, none: word, at: Place)
    requires q == Query(q.message, [0], 0, 2, RivalDraws(near, far, none)) && Listed(q, at)
    ensures SeedAt(q, at) == if at.p > 0 then far else if at.n == 0 then none else near
    ensures |Offsets(q.windowMs)| == 3 && (Away(q, at) == 0 <==> at.p == 0) && at.server == 0
  {
    assert Offsets(2) == [0, -1, 1];
    XorWithZero(RivalDraws(near, far, none)(Int32(Offsets(2)[at.p]), at.n));
  }

  lemma XorWithZero(w: word)
    ensures w ^ 0 == w
  {}

  /** The rival at the second clock is taken, though the nearest clock works too. */
  lemma RivalIsFirst(q: Query, near: word, far: word, none: word)
    requires q == Query(q.message, [0], 0, 2, RivalDraws(near, far, none))
    requires Accepts(q.message, KeyOf(near)) && Accepts(q.message, KeyOf(far)) && !Accepts(q.message, KeyOf(none))
    ensures IsFirst(q, Place(1, 0, 0)) && SeedAt(q, Place(1, 0, 0)) == far
    ensures forall at :: IsNearest(q, at) ==> at != Place(1, 0, 0) && SeedAt(q, at) == near
  {
    hide Accepts, KeyOf, SeedAt, Away, Offsets;
    var first, nearest := Place(1, 0, 0), Place(0, 0, 1);
    RivalSizes(q);
    RivalSeeds(q, near, far, none, first);
    RivalSeeds(q, near, far, none, nearest);
    forall b | WorksAt(q, b) ensures !Earlier(b, first) {
      RivalSeeds(q, near, far, none, b);
    }
    forall at | IsNearest(q, at) ensures at != first && SeedAt(q, at) == near {
      RivalSeeds(q, near, far, none, at);
    }
  }

  lemma RivalKeyIsReturned(message: seq<byte>, near: word, far: word, none: word) returns (q: Query)
    requires Ambiguous(message, near, far, none)
    ensures ReturnsFartherKey(q)
  {
    hide Accepts, KeyOf, SeedAt, IsFirst, IsNearest, Found;
    q := Query(message, [0], 0, 2, RivalDraws(near, far, none));
    RivalIsFirst(q, near, far, none);
    SearchReturnsFirst(q);
  }

  lemma RivalSizes(q: Query)
    requires q.windowMs == 2
    ensures |Offsets(q.windowMs)| == 3
  {}

  /** The search can return another key than a nearest clock's exactly if some message parses under
      the different keys of two seeds and not under that of some third. */
  lemma FartherKeyReturnedIff()
    ensures (exists q :: ReturnsFartherKey(q)) <==>
      exists message, near, far, none :: Ambiguous(message, near, far, none)
  {
    hide ReturnsFartherKey, Ambiguous;
    if q :| ReturnsFartherKey(q) {
      var near, far, none := FartherKeyIsAmbiguous(q);
    }
    if message, near, far, none :| Ambiguous(message, near, far, none) {
      var q := RivalKeyIsReturned(message, near, far, none);
    }
  }

  lemma FrameEndingAt(i: nat) returns (plain: seq<byte>)
    requires i < KEY_SIZE
    ensures Parse(plain).Some? && plain != [] && (|plain| - 1) % KEY_SIZE == i
  {
    hide Parse, Framed, FromBigEndian, ToBigEndian;
    var size := if i + 1 >= FRAMING_SIZE then i + 1 - FRAMING_SIZE else i + 1 - FRAMING_SIZE + KEY_SIZE;
    var frame := Parsed(0, [], seq(size, _ => 0));
    plain := Framed(frame);
    FramedParts(frame);
    FramedParses(frame);
  }

  /** A message that parses under one of two different keys: its last byte lies where they differ. */
  lemma TellsApart(a: word, b: word) returns (message: seq<byte>)
    requires KeyOf(a) != KeyOf(b)
    ensures Accepts(message, KeyOf(a)) && !Accepts(message, KeyOf(b))
  {
    hide KeyOf, KeyByte, Parse, XorWith;
    var i :| 0 <= i < KEY_SIZE && KeyOf(a)[i] != KeyOf(b)[i];
    var plain := FrameEndingAt(i);
    message := XorWith(plain, KeyOf(a));
    XorTwice(plain, KeyOf(a));
    if Accepts(message, KeyOf(b)) {
      SameLastByte(message, a, b);
    }
  }

  lemma SameLastByte(message: seq<byte>, a: word, b: word)
    requires Accepts(message, KeyOf(a)) && Accepts(message, KeyOf(b))
    ensures message != [] && KeyOf(a)[(|message| - 1) % KEY_SIZE] == KeyOf(b)[(|message| - 1) % KEY_SIZE]
  {
    hide KeyOf, Parse, XorWith;
    var last := |message| - 1;
    ParsedEnds(XorWith(message, KeyOf(a)), 3);
    ParsedEnds(XorWith(message, KeyOf(b)), 3);
    StreamAt(message, a, last);
    StreamAt(message, b, last);
    XorCancels(message[last], KeyOf(a)[last % KEY_SIZE], KeyOf(b)[last % KEY_SIZE]);
  }

  lemma StreamAt(message: seq<byte>, seed: word, k: nat)
    requires k < |message|
    ensures XorWith(message, KeyOf(seed))[k] == message[k] ^ KeyOf(seed)[k % KEY_SIZE]
  {
    hide KeyByte;
  }

  lemma XorCancels(x: byte, a: byte, b: byte)
    ensures x ^ a == x ^ b ==> a == b
  {}

  /** The search can take a clock that is not nearest among those that work, exactly if two seeds have
      different keys. */
  lemma FartherClockTakenIff()
    ensures (exists q: Query, first :: q.InRange() && IsFirst(q, first) && !IsNearest(q, first)) <==>
      exists a, b :: KeyOf(a) != KeyOf(b)
  {
    hide KeyOf, Accepts, IsFirst, IsNearest, SeedAt;
    if q: Query, first :| q.InRange() && IsFirst(q, first) && !IsNearest(q, first) {
      FirstWorksAt(q, first);
      var nearest := NearestExists(q, first);
      var none := TriedInVain(q, first, nearest);
      assert KeyOf(SeedAt(q, first)) != KeyOf(none);
    }
    if a, b :| KeyOf(a) != KeyOf(b) {
      var message := TellsApart(a, b);
      var q := Query(message, [0], 0, 2, RivalDraws(a, a, b));
      RivalIsFirst(q, a, a, b);
    }
  }

  lemma FirstWorksAt(q: Query, at: Place)
    requires IsFirst(q, at)
    ensures WorksAt(q, at) && Listed(q, at)
  {}
}
