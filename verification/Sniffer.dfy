/** The sniffer of capture/sniffer.py: packets go to the stream of their direction, and the
    messages that come out go through the connection. */
module Sniffer {
  import opened Bytes
  import opened Connection
  import opened Mersenne
  import opened Message
  import Kcp
  import Proto
  import SessionKey

  const PORTS: set<nat> := {22101, 22102}
  const HANDSHAKE_SIZE := 20
  const HANDSHAKE := 0xFF

  datatype Packet = Packet(payload: seq<byte>, src: nat, dst: nat, now: real)

  datatype Stream = Stream(conv: nat, state: Kcp.State)

  datatype Capture = Capture(loggedIn: bool, warned: bool, skippedEarlier: nat, streams: map<bool, Stream>,
                             connection: Connection.State)

  const IDLE := Capture(false, false, 0, map[], Fresh(0, false))

  // ----- One packet

  predicate Ours(p: Packet) {
    p.src in PORTS || p.dst in PORTS
  }

  predicate FromServer(p: Packet) {
    p.src in PORTS
  }

  /** A short packet of ours whose first four bytes, or fewer if it has fewer, hold 255. */
  predicate Opens(p: Packet) {
    && Ours(p) && |p.payload| <= HANDSHAKE_SIZE
    && FromBigEndian(if |p.payload| < 4 then p.payload else p.payload[..4]) == HANDSHAKE
  }

  /** The packet carries segments, if the login was seen. */
  predicate Carries(p: Packet) {
    Ours(p) && |p.payload| > HANDSHAKE_SIZE
  }

  function Skipped(c: Capture): nat {
    c.skippedEarlier + (if false in c.streams then c.streams[false].state.skipped else 0)
                     + (if true in c.streams then c.streams[true].state.skipped else 0)
  }

  function Reset(c: Capture): Capture {
    c.(skippedEarlier := Skipped(c), streams := map[], connection := Fresh(c.connection.broken, c.connection.decrypted))
  }

  /** The stream of a packet's direction. Its first packet gives the connection number. */
  function StreamOf(c: Capture, p: Packet): Stream
    requires Carries(p)
  {
    if FromServer(p) in c.streams then c.streams[FromServer(p)]
    else Stream(FromLittleEndian(p.payload[..4]), Kcp.START)
  }

  ghost function Reassembled(c: Capture, p: Packet): (Kcp.State, seq<Kcp.message>)
    requires Carries(p)
  {
    Kcp.Feed(StreamOf(c, p).state, StreamOf(c, p).conv, p.payload, p.now)
  }

  function DecryptAll(env: Environment, st: Connection.State, messages: seq<seq<byte>>, fromServer: bool)
    : (Connection.State, seq<Command>)
  {
    if messages == [] then (st, [])
    else
      var (before, commands) := DecryptAll(env, st, messages[..|messages| - 1], fromServer);
      var (after, more) := Decrypt(env, before, Received(messages[|messages| - 1], fromServer));
      (after, commands + more)
  }

  ghost function Feed(env: Environment, c: Capture, p: Packet): (Capture, seq<Command>) {
    if Opens(p) then (Reset(c).(loggedIn := true), [])
    else if !Carries(p) then (c, [])
    else if !c.loggedIn then (c.(warned := true), [])
    else if c.connection.dead then (c, [])
    else
      var (state, messages) := Reassembled(c, p);
      var (after, commands) := DecryptAll(env, c.connection, messages, FromServer(p));
      (c.(streams := c.streams[FromServer(p) := Stream(StreamOf(c, p).conv, state)], connection := after), commands)
  }

  // ----- The class

  /** What waits is long enough to hold the four magic bytes. */
  predicate AllLong(received: seq<Received>) {
    forall k :: 0 <= k < |received| ==> |received[k].message| >= FRAMING_SIZE
  }

  class Sniffer {
    const env: Environment
    var loggedIn: bool
    var warned: bool
    var skippedEarlier: nat
    var kcp: map<bool, Kcp.Kcp>
    var key: Option<seq<byte>>
    var session: bool
    var dead: bool
    var seeds: seq<word>
    var sentMs: nat
    var waiting: seq<Received>
    var waitingBytes: nat
    var tried: nat
    var broken: nat
    var decrypted: bool

    ghost predicate Valid()
      reads this
    {
      (true in kcp && false in kcp ==> kcp[true] != kcp[false]) && AllLong(waiting)
    }

    ghost function Connected(): Connection.State
      reads this
    {
      State(key, session, dead, seeds, sentMs, waiting, waitingBytes, tried, broken, decrypted)
    }

    ghost function Streams(): map<bool, Stream>
      reads this`kcp, kcp.Values
    {
      map d | d in kcp :: Stream(kcp[d].conv, kcp[d].Now())
    }

    ghost function Now(): Capture
      reads this, kcp.Values
    {
      Capture(loggedIn, warned, skippedEarlier, Streams(), Connected())
    }

    constructor (env: Environment)
      ensures Valid() && Now() == IDLE && this.env == env && kcp == map[]
    {
      this.env := env;
      loggedIn, warned, skippedEarlier, kcp := false, false, 0, map[];
      key, session, dead, seeds, sentMs := None, false, false, [], 0;
      waiting, waitingBytes, tried, broken, decrypted := [], 0, 0, 0, false;
    }

    /** The property `skipped`. */
    function TotalSkipped(): (n: nat)
      reads this, kcp.Values
      ensures n == Skipped(Now())
    {
      skippedEarlier + (if false in kcp then kcp[false].skipped else 0) + (if true in kcp then kcp[true].skipped else 0)
    }

    /** `reset`. */
    method ResetAll()
      requires Valid()
      modifies this
      ensures Valid() && Now() == Reset(old(Now())) && kcp == map[]
    {
      hide Skipped;
      skippedEarlier := TotalSkipped();
      kcp := map[];
      assert Streams() == map[];
      ResetConnection();
    }

    method ResetConnection()
      modifies this`key, this`session, this`dead, this`seeds, this`sentMs, this`waiting, this`waitingBytes, this`tried
      ensures Connected() == Fresh(old(broken), old(decrypted)) && waiting == []
    {
      key, session, dead, seeds, sentMs := None, false, false, [], 0;
      waiting, waitingBytes, tried := [], 0, 0;
    }

    method FeedPacket(p: Packet) returns (commands: seq<Command>)
      requires Valid()
      modifies this, kcp.Values
      ensures Valid() && fresh(kcp.Values - old(kcp.Values))
      ensures (Now(), commands) == Feed(env, old(Now()), p)
    {
      hide Reassembled, DecryptAll, Reset, FromBigEndian, AllLong, StreamOf;
      commands := [];
      if p.src !in PORTS && p.dst !in PORTS {
        return;
      }
      if |p.payload| <= HANDSHAKE_SIZE {
        if FromBigEndian(if |p.payload| < 4 then p.payload else p.payload[..4]) == HANDSHAKE {
          ResetAll();
          assert Streams() == map[];
          loggedIn := true;
        }
        return;
      }
      if !loggedIn {
        warned := true;
        return;
      }
      if dead {
        return;
      }
      commands := FeedSegments(p);
    }

    /** The packet's segments go to their stream, and the messages they complete are decrypted. */
    method FeedSegments(p: Packet) returns (commands: seq<Command>)
      requires Valid() && Carries(p) && loggedIn && !dead
      modifies this, kcp.Values
      ensures Valid() && fresh(kcp.Values - old(kcp.Values))
      ensures (Now(), commands) == Feed(env, old(Now()), p)
    {
      hide Reassembled, DecryptAll, AllLong, StreamOf, Ours, FromBigEndian;
      var fromServer := FromServer(p);
      var messages := Reassemble(p);
      ghost var streams := Streams();
      commands := DecryptEach(messages, fromServer);
      assert Streams() == streams;
    }

    /** The packet's stream, made if it is the direction's first, takes its segments. */
    method Reassemble(p: Packet) returns (messages: seq<Kcp.message>)
      requires Valid() && Carries(p)
      modifies this`kcp, kcp.Values
      ensures Valid() && fresh(kcp.Values - old(kcp.Values))
      ensures var (state, all) := Reassembled(old(Now()), p);
        && messages == all
        && Streams() == old(Streams())[FromServer(p) := Stream(StreamOf(old(Now()), p).conv, state)]
    {
      hide Kcp.Feed, Kcp.START;
      ghost var before := Streams();
      MakeStream(p);
      ghost var made := Streams();
      messages := FeedStream(FromServer(p), p.payload, p.now);
    }

    method MakeStream(p: Packet)
      requires Valid() && Carries(p)
      modifies this`kcp
      ensures Valid() && fresh(kcp.Values - old(kcp.Values)) && FromServer(p) in kcp
      ensures Streams() == old(Streams())[FromServer(p) := StreamOf(old(Now()), p)]
    {
      hide Kcp.START;
      if FromServer(p) !in kcp {
        var stream := new Kcp.Kcp(FromLittleEndian(p.payload[..4]));
        kcp := kcp[FromServer(p) := stream];
      }
    }

    method FeedStream(d: bool, data: seq<byte>, now: real) returns (messages: seq<Kcp.message>)
      requires Valid() && d in kcp && kcp[d] in kcp.Values
      modifies kcp[d]
      ensures var before := old(Streams());
        var (state, all) := Kcp.Feed(before[d].state, before[d].conv, data, now);
        messages == all && Streams() == before[d := Stream(before[d].conv, state)]
    {
      hide Kcp.Feed;
      ghost var before := Streams();
      messages := kcp[d].FeedDatagram(data, now);
      forall e | e in kcp && e != d ensures Streams()[e] == before[e] {
        assert kcp[e] != kcp[d];
      }
    }

    method DecryptEach(messages: seq<seq<byte>>, fromServer: bool) returns (commands: seq<Command>)
      requires AllLong(waiting)
      modifies this`key, this`session, this`dead, this`seeds, this`sentMs, this`waiting, this`waitingBytes,
               this`tried, this`broken, this`decrypted
      ensures AllLong(waiting)
      ensures (Connected(), commands) == DecryptAll(env, old(Connected()), messages, fromServer)
    {
      hide Connection.Decrypt;
      commands := [];
      for k := 0 to |messages|
        invariant AllLong(waiting)
        invariant (Connected(), commands) == DecryptAll(env, old(Connected()), messages[..k], fromServer)
      {
        assert messages[..k + 1][..k] == messages[..k];
        var more := DecryptOne(Received(messages[k], fromServer));
        commands := commands + more;
      }
      assert messages[..|messages|] == messages;
    }

    /** `decrypt`. */
    method DecryptOne(r: Received) returns (commands: seq<Command>)
      requires AllLong(waiting)
      modifies this`key, this`session, this`dead, this`seeds, this`sentMs, this`waiting, this`waitingBytes,
               this`tried, this`broken, this`decrypted
      ensures AllLong(waiting)
      ensures (Connected(), commands) == Decrypt(env, old(Connected()), r)
    {
      hide Recover, ParseUnder, KeyId, Learn;
      commands := [];
      if dead || |r.message| < FRAMING_SIZE {
        return;
      }
      if key.None? {
        key := Lookup(env.dispatchKeys, KeyId(r.message));
        if key.None? {
          dead := true;
          return;
        }
      }
      var parsed := ParseUnder(r.message, key.value);
      if parsed.Some? {
        var command := TakeCommand(parsed.value, r.fromServer);
        commands := [command];
        if waiting != [] && seeds != [] {
          var more := RecoverSession();
          commands := commands + more;
        }
        return;
      }
      if session {
        broken := broken + 1;
        return;
      }
      if waitingBytes + |r.message| <= WAITING_CAP {
        waiting := waiting + [r];
        waitingBytes := waitingBytes + |r.message|;
      }
      if seeds != [] {
        commands := RecoverSession();
      }
    }

    /** `recover`. */
    method RecoverSession() returns (commands: seq<Command>)
      requires seeds != [] && AllLong(waiting)
      modifies this`key, this`session, this`dead, this`waiting, this`waitingBytes, this`tried, this`broken,
          this`decrypted
      ensures AllLong(waiting)
      ensures (Connected(), commands) == Recover(env, old(Connected()))
    {
      hide SessionKey.SearchResult, StartSession;
      while tried < |waiting| && tried < RECOVERY_TRIES
        invariant Recover(env, Connected()) == Recover(env, old(Connected()))
        invariant seeds == old(seeds) && waiting == old(waiting)
        decreases RECOVERY_TRIES - tried
      {
        var message := waiting[tried].message;
        tried := tried + 1;
        var found := SessionKey.FindSessionKey(message, seeds, sentMs, WINDOW_MS, env.draw);
        if found.Some? {
          commands := BeginSession(found.value);
          return;
        }
      }
      commands := [];
      if tried == RECOVERY_TRIES {
        dead := true;
        waiting := [];
      }
    }

    /** `start_session`. */
    method BeginSession(sessionKey: seq<byte>) returns (commands: seq<Command>)
      modifies this`key, this`session, this`waiting, this`waitingBytes, this`broken, this`decrypted
      ensures waiting == []
      ensures (Connected(), commands) == StartSession(old(Connected()), sessionKey)
    {
      hide ParseUnder;
      key, session, decrypted := Some(sessionKey), true, true;
      commands := [];
      for k := 0 to |waiting|
        invariant waiting == old(waiting) && waitingBytes == old(waitingBytes)
        invariant key == Some(sessionKey) && session && decrypted
        invariant commands == Replay(waiting[..k], sessionKey)
        invariant broken == old(broken) + Unparsed(waiting[..k], sessionKey)
      {
        assert waiting[..k + 1] == waiting[..k] + [waiting[k]];
        ReplayPlaced(waiting[..k], waiting[k], sessionKey);
        match ParseUnder(waiting[k].message, sessionKey)
        case None => broken := broken + 1;
        case Some(p) => commands := commands + [CommandOf(p, waiting[k].fromServer)];
      }
      assert waiting[..|waiting|] == waiting;
      waiting, waitingBytes := [], 0;
    }

    /** `command`. */
    method TakeCommand(p: Parsed, fromServer: bool) returns (command: Command)
      modifies this`seeds, this`sentMs
      ensures Connected() == Learn(env, old(Connected()), p, fromServer) && command == CommandOf(p, fromServer)
    {
      if fromServer && !session {
        var halves := env.serverSeeds(p.body);
        if halves != [] {
          seeds := halves;
          var varints, _ := Proto.Fields(p.header);
          sentMs := LastVarint(varints, SENT_FIELD);
        }
      }
      command := CommandOf(p, fromServer);
    }
  }

  // ----- Runs

  /** The state after a run of packets. */
  ghost function After(env: Environment, run: seq<Packet>): Capture
    decreases |run|, 1
  {
    if run == [] then IDLE else LastFeed(env, run).0
  }

  ghost function LastFeed(env: Environment, run: seq<Packet>): (Capture, seq<Command>)
    requires run != []
    decreases |run|, 0
  {
    Feed(env, After(env, run[..|run| - 1]), run[|run| - 1])
  }

  /** The packet's segments are taken in. */
  ghost predicate Takes(c: Capture, p: Packet) {
    Carries(p) && c.loggedIn && !c.connection.dead
  }

  function Tagged(messages: seq<seq<byte>>, fromServer: bool): (tagged: seq<Received>)
    ensures |tagged| == |messages|
  {
    seq(|messages|, k requires 0 <= k < |messages| => Received(messages[k], fromServer))
  }

  /** The messages that reached the connection since the last opening handshake. */
  ghost function Log(env: Environment, run: seq<Packet>): seq<Received> {
    if run == [] then []
    else
      var front, last := run[..|run| - 1], run[|run| - 1];
      if Opens(last) then []
      else if Takes(After(env, front), last) then
        Log(env, front) + Tagged(Reassembled(After(env, front), last).1, FromServer(last))
      else Log(env, front)
  }

  /** The commands given since then. */
  ghost function Commands(env: Environment, run: seq<Packet>): seq<Command> {
    if run == [] then []
    else if Opens(run[|run| - 1]) then []
    else Commands(env, run[..|run| - 1]) + LastFeed(env, run).1
  }

  /** The connection as that handshake left it. */
  ghost function Opened(env: Environment, run: seq<Packet>): Connection.State {
    if run == [] || Opens(run[|run| - 1]) then After(env, run).connection else Opened(env, run[..|run| - 1])
  }

  lemma {:induction false} DecryptAllIsRun(env: Environment, base: Connection.State, log: seq<Received>,
                        messages: seq<seq<byte>>, d: bool)
    ensures var (after, commands) := DecryptAll(env, Connection.After(env, base, log), messages, d);
      && after == Connection.After(env, base, log + Tagged(messages, d))
      && Emitted(env, base, log) + commands == Emitted(env, base, log + Tagged(messages, d))
  {
    hide Connection.Decrypt, Connection.After, Emitted;
    if messages == [] {
      assert log + Tagged(messages, d) == log;
      assert Emitted(env, base, log) + [] == Emitted(env, base, log);
    } else {
      var front, last := messages[..|messages| - 1], Received(messages[|messages| - 1], d);
      DecryptAllIsRun(env, base, log, front, d);
      assert log + Tagged(messages, d) == log + Tagged(front, d) + [last];
      OneMoreMessage(env, base, log + Tagged(front, d), last);
      var (mid, before) := DecryptAll(env, Connection.After(env, base, log), front, d);
      assert Emitted(env, base, log) + before + Decrypt(env, mid, last).1
          == Emitted(env, base, log) + (before + Decrypt(env, mid, last).1);
    }
  }

  lemma OneMoreMessage(env: Environment, base: Connection.State, log: seq<Received>, r: Received)
    ensures var (after, commands) := Decrypt(env, Connection.After(env, base, log), r);
      Connection.After(env, base, log + [r]) == after
      && Emitted(env, base, log + [r]) == Emitted(env, base, log) + commands
  {
    hide Connection.Decrypt;
    assert (log + [r])[..|log|] == log;
  }

  /** The connection is always the run of the messages that reached it since the last handshake. */
  lemma {:induction false} ConnectionIsRun(env: Environment, run: seq<Packet>)
    ensures var base := Opened(env, run);
      && base == Fresh(base.broken, base.decrypted)
      && After(env, run).connection == Connection.After(env, base, Log(env, run))
      && Commands(env, run) == Emitted(env, base, Log(env, run))
  {
    hide Connection.After, Emitted, Reassembled, DecryptAll;
    if run == [] {
      EmptyRun(env, Fresh(0, false));
    } else {
      var front, last := run[..|run| - 1], run[|run| - 1];
      ConnectionIsRun(env, front);
      EmptyRun(env, Opened(env, run));
      assert Commands(env, front) + [] == Commands(env, front);
      if !Opens(last) && Takes(After(env, front), last) {
        DecryptAllIsRun(env, Opened(env, front), Log(env, front), Reassembled(After(env, front), last).1,
            FromServer(last));
      } else if Opens(last) {
        assert After(env, run).connection == Reset(After(env, front)).connection;
      } else {
        assert LastFeed(env, run).1 == [] && Opened(env, run) == Opened(env, front);
      }
    }
  }

  lemma EmptyRun(env: Environment, base: Connection.State)
    ensures Connection.After(env, base, []) == base && Emitted(env, base, []) == []
  {}

  /** So whatever packets come, what holds of every run on one connection holds of the connection:
      its invariant, and that each message that reached it is accounted for exactly once. */
  lemma EveryRunIsAccountedFor(env: Environment, run: seq<Packet>) returns (l: Ledger)
    ensures Sane(After(env, run).connection)
    ensures Agrees(env, Opened(env, run), Log(env, run), After(env, run).connection, Commands(env, run), l)
    ensures Partitions(l, |Log(env, run)|)
  {
    hide Connection.After, Emitted, Agrees, Partitions, Sane, Commands, Log, Opened;
    ConnectionIsRun(env, run);
    var base := Opened(env, run);
    l := EveryMessageIsAccountedFor(env, base.broken, base.decrypted, Log(env, run));
    RunsAreSane(env, base.broken, base.decrypted, Log(env, run));
  }

  // ----- The streams under the connection

  /** The datagrams that one direction's stream took in since the last handshake. */
  ghost function Datagrams(env: Environment, run: seq<Packet>, d: bool): seq<Kcp.Datagram> {
    if run == [] || Opens(run[|run| - 1]) then []
    else
      var front, last := run[..|run| - 1], run[|run| - 1];
      Datagrams(env, front, d)
      + if Takes(After(env, front), last) && FromServer(last) == d then [Kcp.Datagram(last.payload, last.now)] else []
  }

  /** The messages of one direction. */
  ghost function Direction(log: seq<Received>, d: bool): seq<seq<byte>> {
    if log == [] then []
    else
      var last := log[|log| - 1];
      Direction(log[..|log| - 1], d) + if last.fromServer == d then [last.message] else []
  }

  lemma {:induction false} DirectionOfTagged(log: seq<Received>, messages: seq<seq<byte>>, from: bool, d: bool)
    ensures Direction(log + Tagged(messages, from), d) == Direction(log, d) + if from == d then messages else []
  {
    hide Direction;
    if messages == [] {
      assert log + Tagged(messages, from) == log;
      assert Direction(log, d) + [] == Direction(log, d);
    } else {
      var front, last := messages[..|messages| - 1], messages[|messages| - 1];
      DirectionOfTagged(log, front, from, d);
      var before := log + Tagged(front, from);
      assert log + Tagged(messages, from) == before + [Received(last, from)];
      DirectionOfMore(before, Received(last, from), d);
      assert messages == front + [last];
      assert Direction(log, d) + (front + [last]) == Direction(log, d) + front + [last];
    }
  }

  lemma DirectionOfMore(log: seq<Received>, r: Received, d: bool)
    ensures Direction(log + [r], d) == Direction(log, d) + if r.fromServer == d then [r.message] else []
  {
    assert (log + [r])[..|log|] == log;
  }

  // ----- Which packets count, and for which side

  /** A packet opens a connection exactly if one of its ports is 22101 or 22102, it has 20 bytes or
      fewer, and its first four, or all if it has fewer, are zeros up to a last one of 255. */
  lemma OpensIff(p: Packet)
    ensures Opens(p) <==>
      && (p.src == 22101 || p.src == 22102 || p.dst == 22101 || p.dst == 22102) && 0 < |p.payload| <= 20
      && var n := if |p.payload| < 4 then |p.payload| else 4;
         p.payload[n - 1] == 0xFF && forall i :: 0 <= i < n - 1 ==> p.payload[i] == 0
  {
    hide FromBigEndian;
    var start := if |p.payload| < 4 then p.payload else p.payload[..4];
    FirstBytesAre255(start);
  }

  lemma {:induction false} FirstBytesAre255(bytes: seq<byte>)
    ensures FromBigEndian(bytes) == 0xFF <==>
      bytes != [] && bytes[|bytes| - 1] == 0xFF && forall i :: 0 <= i < |bytes| - 1 ==> bytes[i] == 0
  {
    if bytes != [] {
      var front := bytes[..|bytes| - 1];
      ZeroBytes(front);
      assert bytes[|bytes| - 1] as int == 255 <==> bytes[|bytes| - 1] == 0xFF;
    }
  }

  lemma {:induction false} ZeroBytes(bytes: seq<byte>)
    ensures FromBigEndian(bytes) == 0 <==> forall i :: 0 <= i < |bytes| ==> bytes[i] == 0
  {
    if bytes != [] {
      var front := bytes[..|bytes| - 1];
      ZeroBytes(front);
      assert bytes[|bytes| - 1] as int == 0 <==> bytes[|bytes| - 1] == 0;
      assert forall i :: 0 <= i < |front| ==> front[i] == bytes[i];
    }
  }

  /** A packet is the server's exactly if it comes from port 22101 or 22102. It adds only messages of
      its own side to the log, and leaves the other side's stream, datagrams and messages as they
      are. */
  lemma PacketsKeepToTheirSide(env: Environment, run: seq<Packet>, p: Packet, d: bool)
    requires !Opens(p)
    ensures var byServer, all := p.src == 22101 || p.src == 22102, run + [p];
      var before, after := Log(env, run), Log(env, all);
      && before <= after
      && (forall k :: |before| <= k < |after| ==> after[k].fromServer == byServer)
      && (d != byServer ==>
            && (d in After(env, all).streams <==> d in After(env, run).streams)
            && (d in After(env, run).streams ==> After(env, all).streams[d] == After(env, run).streams[d])
            && Datagrams(env, all, d) == Datagrams(env, run, d)
            && Direction(after, d) == Direction(before, d))
  {
    hide Reassembled, DecryptAll, Direction, Opens;
    var all := run + [p];
    assert all[..|all| - 1] == run;
    if Takes(After(env, run), p) {
      DirectionOfTagged(Log(env, run), Reassembled(After(env, run), p).1, FromServer(p), d);
      assert Direction(Log(env, run), d) + [] == Direction(Log(env, run), d);
    }
  }

  /** A packet's segments are taken in exactly if it has one of the ports and more than 20 bytes,
      after a login and unless the connection is given up. Any other but an opening one changes no
      stream and gives no command. */
  lemma OthersAreIgnored(env: Environment, c: Capture, p: Packet)
    requires !Opens(p)
    ensures Takes(c, p) <==>
      && (p.src == 22101 || p.src == 22102 || p.dst == 22101 || p.dst == 22102)
      && |p.payload| > 20 && c.loggedIn && !c.connection.dead
    ensures var (after, commands) := Feed(env, c, p);
      !Takes(c, p) ==> commands == [] && after == c.(warned := after.warned)
  {
    hide Opens;
  }

  /** A login counts as seen from the first opening packet on, and one is missed if segments come
      before it. What the connections before had broken, and whether any was decrypted, outlives an
      opening packet, and neither is ever taken back. */
  lemma FlagsStay(env: Environment, c: Capture, p: Packet)
    ensures var after := Feed(env, c, p).0;
      && after.loggedIn == (c.loggedIn || Opens(p))
      && after.warned == (c.warned || (Carries(p) && !c.loggedIn))
      && after.connection.broken >= c.connection.broken
      && (c.connection.decrypted ==> after.connection.decrypted)
      && (Opens(p) ==>
            after.connection
            == Connection.State(None, false, false, [], 0, [], 0, 0, c.connection.broken, c.connection.decrypted))
  {
    hide Reassembled, DecryptAll, FromBigEndian, Skipped;
    if Takes(c, p) {
      AllStay(env, c.connection, Reassembled(c, p).1, FromServer(p));
    }
  }

  lemma {:induction false} AllStay(env: Environment, st: Connection.State, messages: seq<seq<byte>>, d: bool)
    ensures var after := DecryptAll(env, st, messages, d).0;
      after.broken >= st.broken && (st.decrypted ==> after.decrypted)
  {
    hide Connection.Decrypt;
    if messages != [] {
      var front := messages[..|messages| - 1];
      AllStay(env, st, front, d);
      DecryptStays(env, DecryptAll(env, st, front, d).0, Received(messages[|messages| - 1], d));
    }
  }

  /** A stream takes the number of its first packet's first segment, so that segment is its own. */
  lemma NewStreamTakesFirst(c: Capture, p: Packet)
    requires Carries(p) && FromServer(p) !in c.streams && Kcp.SegmentEnd(p.payload, 0).Some?
    ensures StreamOf(c, p).conv == Kcp.SegmentAt(p.payload, 0).conv
    ensures Kcp.SegmentAt(p.payload, 0).cmd == 81 ==>
      Kcp.SegmentAt(p.payload, 0).sn in Kcp.Numbers(StreamOf(c, p).conv, Kcp.Segments(p.payload, 0))
  {
    hide FromLittleEndian;
    var segments := Kcp.Segments(p.payload, 0);
    assert p.payload[0..4] == p.payload[..4];
    assert segments[0] == Kcp.SegmentAt(p.payload, 0);
  }

  lemma StreamSteps(conv: nat, grams: seq<Kcp.Datagram>, g: Kcp.Datagram)
    ensures Kcp.After(conv, []) == Kcp.START && Kcp.Emitted(conv, []) == []
    ensures var (state, messages) := Kcp.Feed(Kcp.After(conv, grams), conv, g.data, g.now);
      Kcp.After(conv, grams + [g]) == state && Kcp.Emitted(conv, grams + [g]) == Kcp.Emitted(conv, grams) + messages
  {
    hide Kcp.Feed;
    assert (grams + [g])[..|grams|] == grams;
  }

  /** The stream, the datagrams and the messages of one direction belong together. */
  ghost predicate StreamAgrees(streams: map<bool, Stream>, grams: seq<Kcp.Datagram>, messages: seq<seq<byte>>,
                        d: bool) {
    && (d in streams <==> grams != [])
    && (d !in streams ==> messages == [])
    && (d in streams ==>
          streams[d].state == Kcp.After(streams[d].conv, grams) && messages == Kcp.Emitted(streams[d].conv, grams))
  }

  lemma FeedAgrees(c: Capture, p: Packet, grams: seq<Kcp.Datagram>, messages: seq<seq<byte>>)
    requires Carries(p) && StreamAgrees(c.streams, grams, messages, FromServer(p))
    ensures var d, (state, more) := FromServer(p), Reassembled(c, p);
      StreamAgrees(c.streams[d := Stream(StreamOf(c, p).conv, state)], grams + [Kcp.Datagram(p.payload, p.now)],
                   messages + more, d)
  {
    hide Kcp.Feed, Kcp.After, Kcp.Emitted;
    StreamSteps(StreamOf(c, p).conv, grams, Kcp.Datagram(p.payload, p.now));
    assert [] + Reassembled(c, p).1 == Reassembled(c, p).1;
  }

  /** Each direction's stream is the run of its datagrams, and gave its messages of the log. */
  lemma {:induction false} StreamsAreRuns(env: Environment, run: seq<Packet>, d: bool)
    ensures StreamAgrees(After(env, run).streams, Datagrams(env, run, d), Direction(Log(env, run), d), d)
  {
    hide Reassembled, DecryptAll, Direction, Kcp.After, Kcp.Emitted;
    NoDirection(d);
    if run != [] {
      var front, last := run[..|run| - 1], run[|run| - 1];
      var c := After(env, front);
      StreamsAreRuns(env, front, d);
      assert Datagrams(env, front, d) + [] == Datagrams(env, front, d);
      if !Opens(last) && Takes(c, last) {
        DirectionOfTagged(Log(env, front), Reassembled(c, last).1, FromServer(last), d);
        assert Direction(Log(env, front), d) + [] == Direction(Log(env, front), d);
        if FromServer(last) == d {
          FeedAgrees(c, last, Datagrams(env, front, d), Direction(Log(env, front), d));
        }
      }
    }
  }

  lemma NoDirection(d: bool)
    ensures Direction([], d) == []
  {}

  /** If the segments of a direction are one sender's, then the messages of that direction that
      reach the connection are the sender's, whole, once each and in its order: all of those inside
      what was passed, but for those that end in a skipped number. */
  lemma DecryptedInSenderOrder(env: Environment, run: seq<Packet>, d: bool, sender: seq<Kcp.Fragment>)
    requires d in After(env, run).streams
    requires Kcp.FromSender(sender, After(env, run).streams[d].conv, Datagrams(env, run, d))
    ensures var Stream(conv, st) := After(env, run).streams[d];
      && Kcp.Holds(sender, st)
      && Direction(Log(env, run), d)
         == Kcp.CompleteBut(sender, st.next, Kcp.Skipped(sender, conv, Datagrams(env, run, d)))
      && (st.skipped == 0 ==> Direction(Log(env, run), d) == Kcp.Complete(sender, st.next))
  {
    hide Direction, Log, Datagrams, Kcp.CompleteBut, Kcp.Complete, Kcp.Skipped, Kcp.Emitted, Kcp.FromSender, Kcp.Holds;
    StreamsAreRuns(env, run, d);
    var conv, grams := After(env, run).streams[d].conv, Datagrams(env, run, d);
    Kcp.EmittedIsAllButSkipped(sender, conv, grams);
    if Kcp.After(conv, grams).skipped == 0 {
      Kcp.EmittedIsReceivedPrefix(sender, conv, grams);
    }
  }

  lemma FeedKeepsSkips(st: Kcp.State, conv: nat, data: seq<byte>, now: real)
    ensures Kcp.Feed(st, conv, data, now).0.skipped >= st.skipped
  {
    hide Kcp.TakeAll, Kcp.Drain, Kcp.SkipGap;
    var taken := Kcp.TakeAll(st, conv, Kcp.Segments(data, 0));
    Kcp.TakeKeepsTimer(st, conv, Kcp.Segments(data, 0));
    Kcp.DrainKeepsTimer(taken);
    Kcp.SkipClearsTimer(Kcp.Drain(taken).0);
    Kcp.DrainKeepsTimer(Kcp.SkipGap(Kcp.Drain(taken).0));
  }

  /** No packet lowers the count of skipped gaps, not even a new connection's handshake. */
  lemma SkippedNeverDrops(env: Environment, c: Capture, p: Packet)
    ensures Skipped(Feed(env, c, p).0) >= Skipped(c)
    ensures Opens(p) ==> Skipped(Feed(env, c, p).0) == Skipped(c)
  {
    hide Kcp.Feed, DecryptAll;
    if !Opens(p) && Takes(c, p) {
      FeedKeepsSkips(StreamOf(c, p).state, StreamOf(c, p).conv, p.payload, p.now);
    }
  }
}
