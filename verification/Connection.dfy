/** One connection of the sniffer in capture/sniffer.py: a dispatch key first, then messages that
    wait, then a session key or nothing more. The RSA half of `server_seeds` and the client's
    random draws are parameters. */
module Connection {
  import opened Bytes
  import opened Mersenne
  import opened Message
  import Proto
  import SessionKey

  const WINDOW_MS := 10_000
  const RECOVERY_TRIES := 3
  const WAITING_CAP := 32 * 1024 * 1024
  // The field of the login reply's header that holds its time.
  const SENT_FIELD := 6

  datatype Environment = Environment(dispatchKeys: map<nat, seq<byte>>, serverSeeds: seq<byte> -> seq<word>,
                                     draw: SessionKey.Draws)

  datatype Received = Received(message: seq<byte>, fromServer: bool)

  datatype Command = Command(id: nat, body: seq<byte>, fromServer: bool)

  datatype State = State(key: Option<seq<byte>>, session: bool, dead: bool, seeds: seq<word>, sentMs: nat,
                         waiting: seq<Received>, waitingBytes: nat, tried: nat, broken: nat, decrypted: bool)

  /** A new connection. The last two outlive the connections before it. */
  function Fresh(broken: nat, decrypted: bool): State {
    State(None, false, false, [], 0, [], 0, 0, broken, decrypted)
  }

  // ----- The steps

  function KeyId(message: seq<byte>): nat
    requires |message| >= 2
  {
    FromBigEndian(XorWith(message[..2], MAGIC_START))
  }

  function Lookup(keys: map<nat, seq<byte>>, id: nat): Option<seq<byte>> {
    if id in keys then Some(keys[id]) else None
  }

  function ParseUnder(message: seq<byte>, key: seq<byte>): Option<Parsed> {
    Parse(XorWith(message, key))
  }

  /** `dict(varints).get(number, 0)`: the last field with the number counts. */
  function LastVarint(varints: seq<(nat, nat)>, number: nat): nat {
    if varints == [] then 0
    else
      var last := varints[|varints| - 1];
      if last.0 == number then last.1 else LastVarint(varints[..|varints| - 1], number)
  }

  function CommandOf(p: Parsed, fromServer: bool): Command {
    Command(p.command, p.body, fromServer)
  }

  /** What `command` does to the state: it looks for the server's seed halves. */
  function Learn(env: Environment, st: State, p: Parsed, fromServer: bool): State {
    if fromServer && !st.session && env.serverSeeds(p.body) != [] then
      st.(seeds := env.serverSeeds(p.body), sentMs := LastVarint(Proto.VarintsOf(p.header), SENT_FIELD))
    else st
  }

  /** The commands of the messages that a key parses, in order. */
  function Replay(received: seq<Received>, key: seq<byte>): seq<Command> {
    if received == [] then []
    else
      var last := received[|received| - 1];
      Replay(received[..|received| - 1], key)
      + match ParseUnder(last.message, key) case None => [] case Some(p) => [CommandOf(p, last.fromServer)]
  }

  function Unparsed(received: seq<Received>, key: seq<byte>): nat {
    if received == [] then 0
    else
      Unparsed(received[..|received| - 1], key)
      + if ParseUnder(received[|received| - 1].message, key).None? then 1 else 0
  }

  function StartSession(st: State, key: seq<byte>): (State, seq<Command>) {
    (st.(key := Some(key), session := true, decrypted := true, broken := st.broken + Unparsed(st.waiting, key),
         waiting := [], waitingBytes := 0),
     Replay(st.waiting, key))
  }

  function Search(env: Environment, st: State, message: seq<byte>): Option<seq<byte>> {
    SessionKey.SearchResult(message, st.seeds, st.sentMs, WINDOW_MS, env.draw)
  }

  predicate CanTry(st: State) {
    st.tried < |st.waiting| && st.tried < RECOVERY_TRIES
  }

  function Recover(env: Environment, st: State): (State, seq<Command>)
    decreases RECOVERY_TRIES - st.tried
  {
    if CanTry(st) then
      var next := st.(tried := st.tried + 1);
      match Search(env, st, st.waiting[st.tried].message)
      case Some(key) => StartSession(next, key)
      case None => Recover(env, next)
    else if st.tried == RECOVERY_TRIES then (st.(dead := true, waiting := []), [])
    else (st, [])
  }

  /** The state once the first message has given its dispatch key away. */
  function WithKey(env: Environment, st: State, message: seq<byte>): (keyed: State)
    requires |message| >= 2
    ensures keyed.key.Some? || keyed.dead
  {
    if st.key.Some? then st
    else
      var key := Lookup(env.dispatchKeys, KeyId(message));
      st.(key := key, dead := st.dead || key.None?)
  }

  function Hold(st: State, r: Received): State {
    if st.waitingBytes + |r.message| <= WAITING_CAP then
      st.(waiting := st.waiting + [r], waitingBytes := st.waitingBytes + |r.message|)
    else st
  }

  function Decrypt(env: Environment, st: State, r: Received): (State, seq<Command>) {
    if st.dead || |r.message| < FRAMING_SIZE then (st, [])
    else
      var keyed := WithKey(env, st, r.message);
      if keyed.dead then (keyed, [])
      else
        match ParseUnder(r.message, keyed.key.value)
        case Some(p) =>
          var learned := Learn(env, keyed, p, r.fromServer);
          if learned.waiting != [] && learned.seeds != [] then
            var (after, replayed) := Recover(env, learned);
            (after, [CommandOf(p, r.fromServer)] + replayed)
          else (learned, [CommandOf(p, r.fromServer)])
        case None =>
          if keyed.session then (keyed.(broken := keyed.broken + 1), [])
          else
            var held := Hold(keyed, r);
            if held.seeds != [] then Recover(env, held) else (held, [])
  }

  // ----- What a sender's messages come to

  lemma MagicCancels(m: byte, k: byte)
    ensures (m ^ k) ^ m == k
  {}

  /** The first message gives its key away: what should be magic names the key's first two bytes. */
  lemma KeyGivesItselfAway(p: Parsed, key: seq<byte>)
    requires |key| >= 2
    ensures KeyId(XorWith(Framed(p), key)) == FromBigEndian(key[..2])
  {
    hide FromBigEndian, Framed, XorWith, KeyStream;
    FramedParts(p);
    var message := XorWith(Framed(p), key);
    forall i | 0 <= i < 2 ensures XorWith(message[..2], MAGIC_START)[i] == key[i] {
      assert Framed(p)[..2][i] == Framed(p)[i] == MAGIC_START[i];
      XorAt(Framed(p), key, i);
      XorAt(message[..2], MAGIC_START, i);
      MagicCancels(MAGIC_START[i], key[i]);
    }
    assert XorWith(message[..2], MAGIC_START) == key[..2];
  }

  lemma XorAt(data: seq<byte>, key: seq<byte>, i: nat)
    requires i < |data| && i < |key|
    ensures XorWith(data, key)[i] == data[i] ^ key[i]
  {}

  /** A message framed and sent under the key in use is handed out as it was, first of what its
      arrival gives; under a session key it is all that happens. */
  lemma SentUnderKeyComesOut(env: Environment, st: State, p: Parsed, key: seq<byte>, fromServer: bool)
    requires Fits(p) && !st.dead && st.key == Some(key)
    ensures var (after, commands) := Decrypt(env, st, Received(XorWith(Framed(p), key), fromServer));
      && commands != [] && commands[0] == Command(p.command, p.body, fromServer)
      && (st.session && st.waiting == [] ==> after == st && |commands| == 1)
  {
    hide Framed, Recover, LastVarint, Parse;
    FramedParts(p);
    FramedParses(p);
    XorTwice(Framed(p), key);
  }

  /** So if the keys are listed under their first two bytes, the first message of a connection finds
      its key. */
  lemma FirstMessageFindsItsKey(env: Environment, st: State, p: Parsed, key: seq<byte>, fromServer: bool)
    requires Fits(p) && !st.dead && st.key.None?
    requires |key| >= 2 && Lookup(env.dispatchKeys, FromBigEndian(key[..2])) == Some(key)
    ensures var commands := Decrypt(env, st, Received(XorWith(Framed(p), key), fromServer)).1;
      commands != [] && commands[0] == Command(p.command, p.body, fromServer)
  {
    hide Framed, Recover, LastVarint, Parse, FromBigEndian, KeyId, Lookup;
    FramedParts(p);
    KeyGivesItselfAway(p, key);
    SentUnderKeyComesOut(env, st.(key := Some(key)), p, key, fromServer);
  }

  /** Of several fields with one number the last counts, and without one the value is 0. */
  lemma {:induction false} LastVarintCounts(varints: seq<(nat, nat)>, number: nat, k: nat)
    requires k <= |varints| && forall j :: k < j < |varints| ==> varints[j].0 != number
    requires k < |varints| ==> varints[k].0 == number
    requires k == |varints| ==> forall j :: 0 <= j < |varints| ==> varints[j].0 != number
    ensures LastVarint(varints, number) == if k < |varints| then varints[k].1 else 0
  {
    if varints != [] && k != |varints| - 1 {
      LastVarintCounts(varints[..|varints| - 1], number, if k < |varints| then k else k - 1);
    }
  }

  // ----- Runs

  /** The state after a run of messages. */
  ghost function After(env: Environment, base: State, log: seq<Received>): State
    decreases |log|, 1
  {
    if log == [] then base else LastStep(env, base, log).0
  }

  ghost function LastStep(env: Environment, base: State, log: seq<Received>): (State, seq<Command>)
    requires log != []
    decreases |log|, 0
  {
    Decrypt(env, After(env, base, log[..|log| - 1]), log[|log| - 1])
  }

  /** All commands a run gives, in order. */
  ghost function Emitted(env: Environment, base: State, log: seq<Received>): seq<Command> {
    if log == [] then [] else Emitted(env, base, log[..|log| - 1]) + LastStep(env, base, log).1
  }

  // ----- What every step keeps

  function HeldBytes(received: seq<Received>): nat {
    if received == [] then 0
    else HeldBytes(received[..|received| - 1]) + |received[|received| - 1].message|
  }

  /** What holds between any two messages. Once seed halves are known, every waiting message has
      been tried, so fewer than `RECOVERY_TRIES` wait. */
  ghost predicate Sane(st: State) {
    && !(st.session && st.dead)
    && (st.session ==> st.waiting == [] && st.key.Some? && st.decrypted)
    && (st.dead ==> st.waiting == [])
    && HeldBytes(st.waiting) <= st.waitingBytes <= 33_554_432
    && (!st.dead ==> st.waitingBytes == HeldBytes(st.waiting))
    && st.tried <= RECOVERY_TRIES
    && (st.key.None? ==> st.waiting == [] && st.seeds == [])
    && (st.seeds == [] ==> st.tried == 0 && !st.session)
    && (st.seeds != [] && !st.session && !st.dead ==> st.tried == |st.waiting| < RECOVERY_TRIES)
  }

  /** Before a recovery, the last held message may be the only one not tried yet, or none is. */
  ghost predicate ReadyToRecover(st: State) {
    && !st.session && !st.dead && st.key.Some? && st.seeds != []
    && st.waitingBytes == HeldBytes(st.waiting) <= WAITING_CAP
    && st.tried <= RECOVERY_TRIES && st.tried <= |st.waiting|
  }

  lemma {:induction false} RecoverIsSane(env: Environment, st: State)
    requires ReadyToRecover(st)
    ensures Sane(Recover(env, st).0)
    decreases RECOVERY_TRIES - st.tried
  {
    hide SessionKey.SearchResult, HeldBytes, Replay, Unparsed;
    NoBytes();
    if CanTry(st) {
      RecoverIsSane(env, st.(tried := st.tried + 1));
    }
  }

  lemma NoBytes()
    ensures HeldBytes([]) == 0
  {}

  lemma LearnKeeps(env: Environment, st: State, p: Parsed, fromServer: bool)
    requires Sane(st) && !st.dead && st.key.Some?
    ensures var learned := Learn(env, st, p, fromServer);
      && (learned.waiting != [] && learned.seeds != [] ==> ReadyToRecover(learned))
      && (learned.waiting == [] || learned.seeds == [] ==> Sane(learned))
  {
    hide LastVarint, Proto.VarintsOf;
    NoBytes();
  }

  lemma HoldKeeps(st: State, r: Received)
    requires Sane(st) && !st.dead && !st.session && st.key.Some?
    ensures var held := Hold(st, r);
      && (held.seeds != [] ==> ReadyToRecover(held))
      && (held.seeds == [] ==> Sane(held))
  {
    var more := st.waiting + [r];
    assert more[..|more| - 1] == st.waiting;
  }

  lemma DecryptIsSane(env: Environment, st: State, r: Received)
    requires Sane(st)
    ensures Sane(Decrypt(env, st, r).0)
  {
    hide SessionKey.SearchResult, Recover, ParseUnder, KeyId, LastVarint, Lookup, HeldBytes, Learn, Hold;
    NoBytes();
    if !st.dead && |r.message| >= FRAMING_SIZE {
      var keyed := WithKey(env, st, r.message);
      if !keyed.dead {
        match ParseUnder(r.message, keyed.key.value)
        case Some(p) =>
          var learned := Learn(env, keyed, p, r.fromServer);
          LearnKeeps(env, keyed, p, r.fromServer);
          if learned.waiting != [] && learned.seeds != [] {
            RecoverIsSane(env, learned);
          }
        case None =>
          if !keyed.session {
            HoldKeeps(keyed, r);
            if Hold(keyed, r).seeds != [] {
              RecoverIsSane(env, Hold(keyed, r));
            }
          }
      }
    }
  }

  /** Over every run on one connection: session and dead never both hold, nothing waits under
      either, and the held bytes stay within the cap. */
  lemma {:induction false} RunsAreSane(env: Environment, broken: nat, decrypted: bool, log: seq<Received>)
    ensures Sane(After(env, Fresh(broken, decrypted), log))
  {
    hide Decrypt;
    if log != [] {
      RunsAreSane(env, broken, decrypted, log[..|log| - 1]);
      DecryptIsSane(env, After(env, Fresh(broken, decrypted), log[..|log| - 1]), log[|log| - 1]);
    }
  }

  // ----- How many searches run

  /** The searches of one recovery. */
  ghost function RecoverSearches(env: Environment, st: State): nat
    decreases RECOVERY_TRIES - st.tried
  {
    if !CanTry(st) then 0
    else if Search(env, st, st.waiting[st.tried].message).Some? then 1
    else 1 + RecoverSearches(env, st.(tried := st.tried + 1))
  }

  /** The searches that one message sets off. */
  ghost function DecryptSearches(env: Environment, st: State, r: Received): nat {
    if st.dead || |r.message| < FRAMING_SIZE then 0
    else
      var keyed := WithKey(env, st, r.message);
      if keyed.dead then 0
      else
        match ParseUnder(r.message, keyed.key.value)
        case Some(p) =>
          var learned := Learn(env, keyed, p, r.fromServer);
          if learned.waiting != [] && learned.seeds != [] then RecoverSearches(env, learned) else 0
        case None =>
          if keyed.session || Hold(keyed, r).seeds == [] then 0 else RecoverSearches(env, Hold(keyed, r))
  }

  /** All searches of a run. */
  ghost function Searches(env: Environment, base: State, log: seq<Received>): nat {
    if log == [] then 0
    else
      var front := log[..|log| - 1];
      Searches(env, base, front) + DecryptSearches(env, After(env, base, front), log[|log| - 1])
  }

  lemma {:induction false} RecoverCounts(env: Environment, st: State)
    ensures Recover(env, st).0.tried == st.tried + RecoverSearches(env, st)
    decreases RECOVERY_TRIES - st.tried
  {
    hide Search, Replay, Unparsed;
    if CanTry(st) && Search(env, st, st.waiting[st.tried].message).None? {
      RecoverCounts(env, st.(tried := st.tried + 1));
    }
  }

  lemma DecryptCounts(env: Environment, st: State, r: Received)
    ensures Decrypt(env, st, r).0.tried == st.tried + DecryptSearches(env, st, r)
  {
    hide Recover, RecoverSearches, ParseUnder, KeyId, Lookup, LastVarint;
    if !st.dead && |r.message| >= FRAMING_SIZE {
      var keyed := WithKey(env, st, r.message);
      if !keyed.dead {
        match ParseUnder(r.message, keyed.key.value)
        case Some(p) => RecoverCounts(env, Learn(env, keyed, p, r.fromServer));
        case None => RecoverCounts(env, Hold(keyed, r));
      }
    }
  }

  lemma {:induction false} RunCounts(env: Environment, base: State, log: seq<Received>)
    ensures After(env, base, log).tried == base.tried + Searches(env, base, log)
  {
    hide Decrypt, DecryptSearches;
    if log != [] {
      RunCounts(env, base, log[..|log| - 1]);
      DecryptCounts(env, After(env, base, log[..|log| - 1]), log[|log| - 1]);
    }
  }

  /** Over every run on one connection, at most three searches run. */
  lemma FewSearches(env: Environment, broken: nat, decrypted: bool, log: seq<Received>)
    ensures Searches(env, Fresh(broken, decrypted), log) <= 3
  {
    hide Searches, After;
    RunsAreSane(env, broken, decrypted, log);
    RunCounts(env, Fresh(broken, decrypted), log);
  }

  // ----- When a recovery succeeds

  /** Some clock less than ten seconds from the reply, with some draw and seed half, gives a key that
      parses the message. */
  ghost predicate Recoverable(env: Environment, st: State, message: seq<byte>) {
    exists t: int, n: nat, server ::
      SessionKey.Shares(message, env.draw, st.seeds, st.sentMs, 10_000, t, n, server)
  }

  ghost predicate RecoverableAt(env: Environment, st: State, j: nat)
    requires j < |st.waiting|
  {
    Recoverable(env, st, st.waiting[j].message)
  }

  /** A recovery starts the session exactly when one of the waiting messages it may still try has
      its key inside the window, and then gives at least one command. If it does not and three
      messages have been tried, the connection is dead. */
  lemma {:induction false} RecoversIff(env: Environment, st: State)
    requires ReadyToRecover(st) && st.sentMs < SessionKey.CLOCK_LIMIT
    ensures var (after, commands) := Recover(env, st);
      && (after.session <==> exists j ::
            st.tried <= j < |st.waiting| && j < 3 && RecoverableAt(env, st, j))
      && (after.dead <==> !after.session && |st.waiting| >= 3)
      && (after.session <==> commands != [])
    decreases RECOVERY_TRIES - st.tried
  {
    hide SessionKey.SearchResult, HeldBytes, Replay, Unparsed, Recoverable;
    if CanTry(st) {
      SearchFindsIff(env, st, st.waiting[st.tried].message);
      var found := Search(env, st, st.waiting[st.tried].message);
      if found.Some? {
        assert RecoverableAt(env, st, st.tried);
        ReplayIsNotEmpty(st.waiting, st.tried, found.value);
      } else {
        var next := st.(tried := st.tried + 1);
        RecoversIff(env, next);
        forall j | 0 <= j < |st.waiting| ensures RecoverableAt(env, st, j) == RecoverableAt(env, next, j) {
          SameSeedsSameKeys(env, st, next, st.waiting[j].message);
        }
      }
    }
  }

  /** The messages are tried in order, and the key is that of the first that has one. */
  lemma {:induction false} RecoversWithFirst(env: Environment, st: State)
    ensures var after := Recover(env, st).0;
      after.session && !st.session ==>
        st.tried < after.tried <= |st.waiting| && after.tried <= 3
        && after.key == Search(env, st, st.waiting[after.tried - 1].message)
        && forall j :: st.tried <= j < after.tried - 1 ==> Search(env, st, st.waiting[j].message).None?
    decreases RECOVERY_TRIES - st.tried
  {
    hide Search, Replay, Unparsed;
    if CanTry(st) {
      var next := st.(tried := st.tried + 1);
      forall message ensures Search(env, next, message) == Search(env, st, message) {
        SameSearch(env, st, next, message);
      }
      if Search(env, st, st.waiting[st.tried].message).None? {
        RecoversWithFirst(env, next);
      }
    }
  }

  lemma SameSearch(env: Environment, st: State, next: State, message: seq<byte>)
    requires st.seeds == next.seeds && st.sentMs == next.sentMs
    ensures Search(env, next, message) == Search(env, st, message)
  {}

  lemma SameSeedsSameKeys(env: Environment, st: State, next: State, message: seq<byte>)
    requires st.seeds == next.seeds && st.sentMs == next.sentMs
    ensures Recoverable(env, st, message) == Recoverable(env, next, message)
  {}

  lemma SearchFindsIff(env: Environment, st: State, message: seq<byte>)
    requires st.sentMs < SessionKey.CLOCK_LIMIT
    ensures Search(env, st, message).Some? <==> Recoverable(env, st, message)
    ensures var found := Search(env, st, message); found.Some? ==> ParseUnder(message, found.value).Some?
  {
    hide SessionKey.SearchResult, SessionKey.SharedKey;
    SessionKey.SearchFindsTheClient(message, st.seeds, st.sentMs, 10_000, env.draw);
  }

  lemma {:induction false} ReplayCounts(received: seq<Received>, key: seq<byte>)
    ensures |Replay(received, key)| + Unparsed(received, key) == |received|
  {
    hide ParseUnder;
    if received != [] {
      ReplayCounts(received[..|received| - 1], key);
    }
  }

  /** When the session starts, each waiting message becomes one command or one broken message. */
  lemma SessionStartCounts(st: State, key: seq<byte>)
    ensures var (after, commands) := StartSession(st, key);
      |commands| + (after.broken - st.broken) == |st.waiting| && after.waiting == []
  {
    hide Replay, Unparsed;
    ReplayCounts(st.waiting, key);
  }

  lemma {:induction false} ReplayIsNotEmpty(received: seq<Received>, j: nat, key: seq<byte>)
    requires j < |received| && ParseUnder(received[j].message, key).Some?
    ensures Replay(received, key) != []
  {
    hide ParseUnder;
    if j < |received| - 1 {
      ReplayIsNotEmpty(received[..|received| - 1], j, key);
    }
  }

  /** A replay of messages sent under its key gives them as they were, in order, each from its own
      side. */
  lemma {:induction false} ReplayReadsBack(sent: seq<Parsed>, fromServer: seq<bool>, key: seq<byte>)
    requires |sent| == |fromServer| && forall k :: 0 <= k < |sent| ==> Fits(sent[k])
    ensures Replay(SentUnder(sent, fromServer, key), key)
         == seq(|sent|, k requires 0 <= k < |sent| => Command(sent[k].command, sent[k].body, fromServer[k]))
  {
    hide Framed, Parse, XorWith;
    if sent != [] {
      var front, n := sent[..|sent| - 1], |sent| - 1;
      ReplayReadsBack(front, fromServer[..n], key);
      FramedParses(sent[n]);
      XorTwice(Framed(sent[n]), key);
      assert SentUnder(sent, fromServer, key)[..n] == SentUnder(front, fromServer[..n], key);
    }
  }

  ghost function SentUnder(sent: seq<Parsed>, fromServer: seq<bool>, key: seq<byte>): (received: seq<Received>)
    requires |sent| == |fromServer|
    ensures |received| == |sent|
  {
    seq(|sent|, k requires 0 <= k < |sent| => Received(XorWith(Framed(sent[k]), key), fromServer[k]))
  }

  // ----- What the server's login reply teaches

  /** What the message says under the key it meets, if it says anything. */
  ghost function Said(env: Environment, st: State, r: Received): Option<Parsed> {
    if st.dead || |r.message| < 12 then None
    else
      match if st.key.Some? then st.key else Lookup(env.dispatchKeys, KeyId(r.message))
      case None => None
      case Some(key) => Parse(XorWith(r.message, key))
  }

  /** Seed halves and their time change exactly with a message of the server's that parses before the
      session and holds halves; the time is the last field 6 of its header. */
  lemma LearnsFromServer(env: Environment, st: State, r: Received)
    ensures var after, said := Decrypt(env, st, r).0, Said(env, st, r);
      if r.fromServer && !st.session && said.Some? && env.serverSeeds(said.value.body) != [] then
        && after.seeds == env.serverSeeds(said.value.body)
        && after.sentMs == LastVarint(Proto.VarintsOf(said.value.header), 6)
      else after.seeds == st.seeds && after.sentMs == st.sentMs
  {
    hide Recover, Parse, XorWith, KeyId, Lookup, LastVarint, Proto.VarintsOf;
    if !st.dead && |r.message| >= FRAMING_SIZE {
      var keyed := WithKey(env, st, r.message);
      if !keyed.dead {
        match ParseUnder(r.message, keyed.key.value)
        case Some(p) => RecoverTeachesNothing(env, Learn(env, keyed, p, r.fromServer));
        case None => RecoverTeachesNothing(env, Hold(keyed, r));
      }
    }
  }

  lemma {:induction false} RecoverTeachesNothing(env: Environment, st: State)
    ensures Recover(env, st).0.seeds == st.seeds && Recover(env, st).0.sentMs == st.sentMs
    decreases RECOVERY_TRIES - st.tried
  {
    hide Search, Replay, Unparsed;
    if CanTry(st) && Search(env, st, st.waiting[st.tried].message).None? {
      RecoverTeachesNothing(env, st.(tried := st.tried + 1));
    }
  }

  /** What is broken stays counted, and a decrypted connection stays noted. */
  lemma DecryptStays(env: Environment, st: State, r: Received)
    ensures var after := Decrypt(env, st, r).0;
      after.broken >= st.broken && (st.decrypted ==> after.decrypted)
  {
    hide Recover, ParseUnder, KeyId, Lookup, LastVarint;
    if !st.dead && |r.message| >= FRAMING_SIZE {
      var keyed := WithKey(env, st, r.message);
      if !keyed.dead {
        match ParseUnder(r.message, keyed.key.value)
        case Some(p) => RecoverStays(env, Learn(env, keyed, p, r.fromServer));
        case None => RecoverStays(env, Hold(keyed, r));
      }
    }
  }

  lemma {:induction false} RecoverStays(env: Environment, st: State)
    ensures var after := Recover(env, st).0;
      after.broken >= st.broken && (st.decrypted ==> after.decrypted)
    decreases RECOVERY_TRIES - st.tried
  {
    hide Search, Replay, Unparsed;
    if CanTry(st) && Search(env, st, st.waiting[st.tried].message).None? {
      RecoverStays(env, st.(tried := st.tried + 1));
    }
  }

  // ----- What becomes of every message

  /** The places, in the log of a connection, of the messages that were handed out under the
      dispatch key or the session key, counted broken, left waiting, dropped over the cap, too
      short, or lost with the connection. */
  datatype Ledger = Ledger(early: seq<nat>, late: seq<nat>, broken: seq<nat>, waiting: seq<nat>,
                           dropped: seq<nat>, short: seq<nat>, lost: seq<nat>)

  /** How often the ledger names a place. */
  ghost function Uses(l: Ledger, place: nat): nat {
    multiset(l.early)[place] + multiset(l.late)[place] + multiset(l.broken)[place] + multiset(l.waiting)[place]
    + multiset(l.dropped)[place] + multiset(l.short)[place] + multiset(l.lost)[place]
  }

  /** Every place of a log of `n` messages is in the ledger, and only once, and no other is. */
  ghost predicate Partitions(l: Ledger, n: nat) {
    forall place: nat :: Uses(l, place) == if place < n then 1 else 0
  }

  ghost predicate Ascending(places: seq<nat>, n: nat) {
    && (forall k, l :: 0 <= k < l < |places| ==> places[k] < places[l])
    && (forall k :: 0 <= k < |places| ==> places[k] < n)
  }

  ghost predicate Ordered(l: Ledger, n: nat) {
    && Ascending(l.early, n) && Ascending(l.late, n) && Ascending(l.broken, n) && Ascending(l.waiting, n)
    && Ascending(l.dropped, n) && Ascending(l.short, n) && Ascending(l.lost, n)
  }

  ghost function At(log: seq<Received>, places: seq<nat>): seq<Received>
    requires Ascending(places, |log|)
  {
    seq(|places|, k requires 0 <= k < |places| => log[places[k]])
  }

  /** All of the messages, or none of them, parse under the key. */
  ghost predicate AllParse(received: seq<Received>, key: Option<seq<byte>>) {
    forall k :: 0 <= k < |received| ==> key.Some? && ParseUnder(received[k].message, key.value).Some?
  }

  ghost predicate NoneParse(received: seq<Received>, key: Option<seq<byte>>) {
    forall k :: 0 <= k < |received| ==> key.Some? && ParseUnder(received[k].message, key.value).None?
  }

  function ReplayUnder(received: seq<Received>, key: Option<seq<byte>>): seq<Command> {
    match key case None => [] case Some(k) => Replay(received, k)
  }

  function FirstKey(env: Environment, r: Received): Option<seq<byte>> {
    if |r.message| < FRAMING_SIZE then None else Lookup(env.dispatchKeys, KeyId(r.message))
  }

  /** The key of the first message long enough to have one. */
  ghost function DispatchKey(env: Environment, log: seq<Received>): Option<seq<byte>> {
    if log == [] then None
    else if |log[0].message| >= FRAMING_SIZE then FirstKey(env, log[0])
    else DispatchKey(env, log[1..])
  }

  /** The message at `place` would have taken what is held over the cap. */
  ghost predicate OverCap(env: Environment, base: State, log: seq<Received>, place: nat)
    requires place < |log|
  {
    After(env, base, log[..place]).waitingBytes + |log[place].message| > 33_554_432
  }

  ghost predicate AllOverCap(env: Environment, base: State, log: seq<Received>, places: seq<nat>)
    requires Ascending(places, |log|)
  {
    forall k :: 0 <= k < |places| ==> OverCap(env, base, log, places[k])
  }

  ghost predicate NothingLong(log: seq<Received>) {
    forall k :: 0 <= k < |log| ==> |log[k].message| < FRAMING_SIZE
  }

  ghost function SessionKeyOf(st: State): Option<seq<byte>> {
    if st.session then st.key else None
  }

  /** The ledger agrees with a state of the connection and with the commands it gave. */
  ghost predicate Agrees(env: Environment, base: State, log: seq<Received>, st: State, commands: seq<Command>,
                        l: Ledger) {
    var dispatch, session := DispatchKey(env, log), SessionKeyOf(st);
    && Ordered(l, |log|)
    && commands == ReplayUnder(At(log, l.early), dispatch) + ReplayUnder(At(log, l.late), session)
    && AllParse(At(log, l.early), dispatch) && AllParse(At(log, l.late), session)
    && NoneParse(At(log, l.broken), session)
    && NoneParse(At(log, l.waiting), dispatch) && NoneParse(At(log, l.dropped), dispatch)
    && st.waiting == At(log, l.waiting) && st.broken == base.broken + |l.broken|
    && AllOverCap(env, base, log, l.dropped) && NothingLong(At(log, l.short))
    && (l.lost != [] ==> st.dead)
    && (!st.session && !st.dead ==> st.key == dispatch)
    && (st.key.None? && !st.dead <==> NothingLong(log))
  }

  // ----- The ledger of a longer log

  lemma {:induction false} DispatchKeyGrows(env: Environment, log: seq<Received>, r: Received)
    ensures NothingLong(log) ==> DispatchKey(env, log + [r]) == FirstKey(env, r)
    ensures !NothingLong(log) ==> DispatchKey(env, log + [r]) == DispatchKey(env, log)
    decreases |log|
  {
    hide KeyId, Lookup;
    var more := log + [r];
    if log != [] {
      assert more[1..] == log[1..] + [r];
      DispatchKeyGrows(env, log[1..], r);
      assert forall k :: 0 < k < |log| ==> log[k] == log[1..][k - 1];
    } else {
      assert more[1..] == [];
    }
  }

  lemma NothingYet(env: Environment, log: seq<Received>)
    requires NothingLong(log)
    ensures DispatchKey(env, log) == None
  {
    if log != [] {
      NothingYet(env, log[1..]);
    }
  }

  lemma AtGrows(log: seq<Received>, r: Received, places: seq<nat>)
    requires Ascending(places, |log|)
    ensures Ascending(places, |log| + 1) && At(log + [r], places) == At(log, places)
  {
    assert forall k :: 0 <= k < |places| ==> (log + [r])[places[k]] == log[places[k]];
  }

  lemma OverCapGrows(env: Environment, base: State, log: seq<Received>, r: Received, places: seq<nat>)
    requires Ascending(places, |log|) && AllOverCap(env, base, log, places)
    ensures Ascending(places, |log| + 1) && AllOverCap(env, base, log + [r], places)
  {
    hide After;
    forall k | 0 <= k < |places| ensures OverCap(env, base, log + [r], places[k]) {
      assert OverCap(env, base, log, places[k]);
      assert (log + [r])[..places[k]] == log[..places[k]];
    }
  }

  /** The state a message that is not ignored meets. */
  function Meeting(env: Environment, st: State, r: Received): State {
    if st.dead || |r.message| < FRAMING_SIZE then st else WithKey(env, st, r.message)
  }

  lemma AllAtGrows(env: Environment, base: State, log: seq<Received>, l: Ledger, r: Received)
    requires Ordered(l, |log|)
    ensures Ordered(l, |log| + 1)
    ensures At(log + [r], l.early) == At(log, l.early) && At(log + [r], l.late) == At(log, l.late)
    ensures At(log + [r], l.broken) == At(log, l.broken) && At(log + [r], l.waiting) == At(log, l.waiting)
    ensures At(log + [r], l.dropped) == At(log, l.dropped) && At(log + [r], l.short) == At(log, l.short)
    ensures AllOverCap(env, base, log, l.dropped) ==> AllOverCap(env, base, log + [r], l.dropped)
  {
    hide At, AllOverCap, Ascending;
    AtGrows(log, r, l.early);
    AtGrows(log, r, l.late);
    AtGrows(log, r, l.broken);
    AtGrows(log, r, l.waiting);
    AtGrows(log, r, l.dropped);
    AtGrows(log, r, l.short);
    AtGrows(log, r, l.lost);
    if AllOverCap(env, base, log, l.dropped) {
      OverCapGrows(env, base, log, r, l.dropped);
    }
  }

  lemma AgreesGrows(env: Environment, base: State, log: seq<Received>, st: State, commands: seq<Command>,
                    l: Ledger, r: Received)
    requires Agrees(env, base, log, st, commands, l) && Sane(st)
    ensures Agrees(env, base, log + [r], Meeting(env, st, r), commands, l)
  {
    hide KeyId, Lookup, At, AllParse, NoneParse, AllOverCap, Ascending, DispatchKey, NothingLong;
    DispatchKeyGrows(env, log, r);
    AllAtGrows(env, base, log, l, r);
    NothingLongGrows(log, r);
    if NothingLong(log) {
      NothingYet(env, log);
      NoKeyNoPlaces(log, l.early);
      NoKeyNoPlaces(log, l.dropped);
      NoKeyNoPlaces(log, l.waiting);
    }
  }

  lemma NothingLongGrows(log: seq<Received>, r: Received)
    ensures NothingLong(log + [r]) <==> NothingLong(log) && |r.message| < FRAMING_SIZE
  {
    assert NothingLong(log + [r]) ==> |(log + [r])[|log|].message| < FRAMING_SIZE;
    assert NothingLong(log + [r]) ==> forall k :: 0 <= k < |log| ==> log[k] == (log + [r])[k];
  }

  lemma NoKeyNoPlaces(log: seq<Received>, places: seq<nat>)
    requires Ascending(places, |log|)
    ensures AllParse(At(log, places), None) ==> places == []
    ensures NoneParse(At(log, places), None) ==> places == []
    ensures places == [] ==> At(log, places) == []
    ensures places == [] ==> forall key :: AllParse(At(log, places), key) && NoneParse(At(log, places), key)
  {
    hide ParseUnder;
    var received := At(log, places);
    assert |received| == |places|;
    assert received != [] ==> received[0] in received;
  }

  // ----- Placing one more message

  lemma Placed(places: seq<nat>, n: nat)
    requires Ascending(places, n)
    ensures Ascending(places + [n], n + 1) && multiset(places + [n]) == multiset(places) + multiset{n}
  {}

  lemma AtPlaced(log: seq<Received>, places: seq<nat>, n: nat)
    requires Ascending(places, n) && n < |log|
    ensures Ascending(places + [n], |log|) && Ascending(places, |log|)
    ensures At(log, places + [n]) == At(log, places) + [log[n]]
    ensures NothingLong(At(log, places)) && |log[n].message| < FRAMING_SIZE ==> NothingLong(At(log, places + [n]))
  {}

  lemma ParsePlaced(log: seq<Received>, places: seq<nat>, n: nat, key: Option<seq<byte>>)
    requires Ascending(places, n) && n < |log|
    ensures Ascending(places + [n], |log|) && Ascending(places, |log|)
    ensures key.Some? && ParseUnder(log[n].message, key.value).Some? && AllParse(At(log, places), key) ==>
      AllParse(At(log, places + [n]), key)
    ensures key.Some? && ParseUnder(log[n].message, key.value).None? && NoneParse(At(log, places), key) ==>
      NoneParse(At(log, places + [n]), key)
  {
    hide ParseUnder, At;
    AtPlaced(log, places, n);
  }

  lemma ReplayPlaced(received: seq<Received>, r: Received, key: seq<byte>)
    ensures match ParseUnder(r.message, key)
            case None => Replay(received + [r], key) == Replay(received, key)
            case Some(p) => Replay(received + [r], key) == Replay(received, key) + [CommandOf(p, r.fromServer)]
    ensures Unparsed(received + [r], key) == Unparsed(received, key) + if ParseUnder(r.message, key).None? then 1 else 0
  {
    hide ParseUnder;
    assert (received + [r])[..|received|] == received;
  }

  lemma PartitionsGrows(l: Ledger, n: nat)
    requires Partitions(l, n) && Ordered(l, n)
    ensures Partitions(l.(early := l.early + [n]), n + 1) && Partitions(l.(late := l.late + [n]), n + 1)
    ensures Partitions(l.(broken := l.broken + [n]), n + 1) && Partitions(l.(waiting := l.waiting + [n]), n + 1)
    ensures Partitions(l.(dropped := l.dropped + [n]), n + 1) && Partitions(l.(short := l.short + [n]), n + 1)
    ensures Partitions(l.(lost := l.lost + [n]), n + 1)
  {
    hide Ascending, Uses;
    forall place: nat {
      UsesGrows(l, n, place);
    }
  }

  lemma UsesGrows(l: Ledger, n: nat, place: nat)
    requires Ordered(l, n)
    ensures var uses := Uses(l, place) + if place == n then 1 else 0;
      && Uses(l.(early := l.early + [n]), place) == uses && Uses(l.(late := l.late + [n]), place) == uses
      && Uses(l.(broken := l.broken + [n]), place) == uses && Uses(l.(waiting := l.waiting + [n]), place) == uses
      && Uses(l.(dropped := l.dropped + [n]), place) == uses && Uses(l.(short := l.short + [n]), place) == uses
      && Uses(l.(lost := l.lost + [n]), place) == uses
  {
    hide Ascending;
    Placed(l.early, n);
    Placed(l.late, n);
    Placed(l.broken, n);
    Placed(l.waiting, n);
    Placed(l.dropped, n);
    Placed(l.short, n);
    Placed(l.lost, n);
  }

  lemma PlaceIgnored(env: Environment, base: State, log: seq<Received>, st: State, commands: seq<Command>, l: Ledger)
    requires log != [] && Ordered(l, |log| - 1) && Agrees(env, base, log, st, commands, l)
    ensures |log[|log| - 1].message| < FRAMING_SIZE ==>
      Agrees(env, base, log, st, commands, l.(short := l.short + [|log| - 1]))
    ensures st.dead ==> Agrees(env, base, log, st, commands, l.(lost := l.lost + [|log| - 1]))
  {
    hide At, AllParse, NoneParse, AllOverCap, Ascending, DispatchKey, NothingLong, ReplayUnder;
    AtPlaced(log, l.short, |log| - 1);
    AtPlaced(log, l.lost, |log| - 1);
  }

  lemma PlaceParsed(env: Environment, base: State, log: seq<Received>, st: State, commands: seq<Command>, l: Ledger)
    requires log != [] && Ordered(l, |log| - 1) && Agrees(env, base, log, st, commands, l) && Sane(st)
    requires !st.dead && st.key.Some? && ParseUnder(log[|log| - 1].message, st.key.value).Some?
    ensures var command := CommandOf(ParseUnder(log[|log| - 1].message, st.key.value).value, log[|log| - 1].fromServer);
      Agrees(env, base, log, st, commands + [command],
        if st.session then l.(late := l.late + [|log| - 1]) else l.(early := l.early + [|log| - 1]))
  {
    hide At, NoneParse, AllOverCap, AllParse, Ascending, DispatchKey, NothingLong, Replay, ParseUnder;
    var n, dispatch := |log| - 1, DispatchKey(env, log);
    AtPlaced(log, l.early, n);
    AtPlaced(log, l.late, n);
    ParsePlaced(log, l.early, n, st.key);
    ParsePlaced(log, l.late, n, st.key);
    ReplayPlaced(At(log, l.early), log[n], st.key.value);
    ReplayPlaced(At(log, l.late), log[n], st.key.value);
    NoKeyNoPlaces(log, l.late);
  }

  lemma PlaceBroken(env: Environment, base: State, log: seq<Received>, st: State, commands: seq<Command>, l: Ledger)
    requires log != [] && Ordered(l, |log| - 1) && Agrees(env, base, log, st, commands, l)
    requires st.session && st.key.Some? && ParseUnder(log[|log| - 1].message, st.key.value).None?
    ensures Agrees(env, base, log, st.(broken := st.broken + 1), commands, l.(broken := l.broken + [|log| - 1]))
  {
    hide At, NoneParse, AllOverCap, AllParse, Ascending, DispatchKey, NothingLong, ReplayUnder, ParseUnder;
    AtPlaced(log, l.broken, |log| - 1);
    ParsePlaced(log, l.broken, |log| - 1, st.key);
  }

  lemma PlaceHeld(env: Environment, base: State, log: seq<Received>, st: State, commands: seq<Command>, l: Ledger)
    requires log != [] && Ordered(l, |log| - 1) && Agrees(env, base, log, st, commands, l)
    requires !st.session && !st.dead && st.key.Some? && ParseUnder(log[|log| - 1].message, st.key.value).None?
    requires st.waitingBytes == After(env, base, log[..|log| - 1]).waitingBytes
    ensures var n := |log| - 1;
      Agrees(env, base, log, Hold(st, log[n]), commands,
        if st.waitingBytes + |log[n].message| <= WAITING_CAP then l.(waiting := l.waiting + [n])
        else l.(dropped := l.dropped + [n]))
  {
    hide At, NoneParse, AllParse, Ascending, DispatchKey, NothingLong, ReplayUnder, ParseUnder, After;
    var n := |log| - 1;
    AtPlaced(log, l.waiting, n);
    AtPlaced(log, l.dropped, n);
    ParsePlaced(log, l.waiting, n, st.key);
    ParsePlaced(log, l.dropped, n, st.key);
    assert st.waitingBytes + |log[n].message| > WAITING_CAP ==> OverCap(env, base, log, n);
  }

  // ----- A recovery moves every waiting place

  lemma {:induction false} SplitPlaces(log: seq<Received>, places: seq<nat>, key: seq<byte>)
    returns (parsing: seq<nat>, rest: seq<nat>)
    requires Ascending(places, |log|)
    ensures Ascending(parsing, |log|) && Ascending(rest, |log|)
    ensures forall p :: p in parsing || p in rest ==> p in places
    ensures multiset(places) == multiset(parsing) + multiset(rest)
    ensures Replay(At(log, places), key) == Replay(At(log, parsing), key)
    ensures Unparsed(At(log, places), key) == |rest|
    ensures AllParse(At(log, parsing), Some(key)) && NoneParse(At(log, rest), Some(key))
  {
    hide ParseUnder, Replay, Unparsed, AllParse, NoneParse, At;
    if places == [] {
      NoKeyNoPlaces(log, []);
      parsing, rest := [], [];
      NothingReplays(key);
    } else {
      var front, n := places[..|places| - 1], places[|places| - 1];
      assert places == front + [n];
      parsing, rest := SplitPlaces(log, front, key);
      AllBelow(front, parsing, n);
      AllBelow(front, rest, n);
      AtPlaced(log, front, n);
      ReplayPlaced(At(log, front), log[n], key);
      AtPlaced(log, parsing, n);
      ParsePlaced(log, parsing, n, Some(key));
      ParsePlaced(log, rest, n, Some(key));
      ReplayPlaced(At(log, parsing), log[n], key);
      match ParseUnder(log[n].message, key)
      case Some(_) => parsing := parsing + [n];
      case None => rest := rest + [n];
    }
  }

  lemma NothingReplays(key: seq<byte>)
    ensures Replay([], key) == [] && Unparsed([], key) == 0
  {}

  lemma AllBelow(places: seq<nat>, part: seq<nat>, n: nat)
    requires Ascending(places + [n], n + 1) && (forall p :: p in part ==> p in places)
    requires forall k, l :: 0 <= k < l < |part| ==> part[k] < part[l]
    ensures Ascending(part, n) && Ascending(places, n)
  {
    forall k | 0 <= k < |places| ensures places[k] < n {
      assert (places + [n])[k] < (places + [n])[|places|];
    }
    forall k, l | 0 <= k < l < |places| ensures places[k] < places[l] {
      assert (places + [n])[k] < (places + [n])[l];
    }
    forall k | 0 <= k < |part| ensures part[k] < n {
      assert part[k] in part;
    }
  }

  datatype Outcome = Started(key: seq<byte>) | Died | Waits

  /** A recovery starts the session, or gives up, or changes nothing but its count. */
  lemma {:induction false} RecoverOutcomes(env: Environment, st: State) returns (outcome: Outcome, tried: nat)
    ensures Recover(env, st) == match outcome
      case Started(key) => StartSession(st.(tried := tried), key)
      case Died => (st.(tried := tried, dead := true, waiting := []), [])
      case Waits => (st.(tried := tried), [])
    decreases RECOVERY_TRIES - st.tried
  {
    hide Search, StartSession;
    tried := st.tried;
    if CanTry(st) {
      var found := Search(env, st, st.waiting[st.tried].message);
      if found.Some? {
        tried := st.tried + 1;
        outcome := Started(found.value);
        assert st.(tried := tried).(tried := tried) == st.(tried := tried);
      } else {
        outcome, tried := RecoverOutcomes(env, st.(tried := st.tried + 1));
      }
    } else {
      outcome := if st.tried == RECOVERY_TRIES then Died else Waits;
    }
  }

  lemma RecoverAgrees(env: Environment, base: State, log: seq<Received>, st: State, commands: seq<Command>, l: Ledger)
    returns (after: Ledger)
    requires Agrees(env, base, log, st, commands, l) && Partitions(l, |log|)
    requires !st.session && !st.dead && st.key.Some?
    ensures var (recovered, replayed) := Recover(env, st);
      Agrees(env, base, log, recovered, commands + replayed, after) && Partitions(after, |log|)
  {
    hide Recover, At, AllOverCap, Ascending, DispatchKey, NothingLong, Replay, Unparsed, AllParse, NoneParse,
        Partitions;
    var outcome, tried := RecoverOutcomes(env, st);
    after := l;
    assert commands + [] == commands;
    NoKeyNoPlaces(log, l.late);
    NoKeyNoPlaces(log, l.broken);
    NoKeyNoPlaces(log, []);
    NoPlaces(|log|);
    match outcome
    case Started(key) =>
      var parsing, rest := SplitPlaces(log, l.waiting, key);
      after := l.(late := parsing, broken := rest, waiting := []);
      MovedOn(l, after, |log|);
      NothingReplays(key);
    case Died =>
      after := l.(lost := l.waiting, waiting := []);
      MovedOn(l, after, |log|);
    case Waits =>
  }

  lemma NoPlaces(n: nat)
    ensures Ascending([], n)
  {}

  /** Moving the waiting places to empty lists keeps the ledger's partition. */
  lemma MovedOn(l: Ledger, after: Ledger, n: nat)
    requires Partitions(l, n) && after.waiting == [] && l.late == l.broken == l.lost == []
    requires after.early == l.early && after.dropped == l.dropped && after.short == l.short
    requires multiset(l.waiting) == multiset(after.late) + multiset(after.broken) + multiset(after.lost)
    ensures Partitions(after, n)
  {
    forall place: nat ensures Uses(after, place) == Uses(l, place) {
      assert multiset(l.waiting)[place]
          == multiset(after.late)[place] + multiset(after.broken)[place] + multiset(after.lost)[place];
    }
  }

  // ----- The main result

  lemma FreshAgrees(env: Environment, base: State)
    requires base == Fresh(base.broken, base.decrypted)
    ensures Agrees(env, base, [], base, [], Ledger([], [], [], [], [], [], []))
    ensures Partitions(Ledger([], [], [], [], [], [], []), 0)
  {
    var l := Ledger([], [], [], [], [], [], []);
    forall place: nat ensures Uses(l, place) == 0 {
      var none: seq<nat> := [];
      assert multiset(none)[place] == 0;
    }
    assert At([], []) == [];
  }

  /** One more message: the step from the ledger of a log to that of a longer one. */
  lemma DecryptAgrees(env: Environment, base: State, log: seq<Received>, commands: seq<Command>, l: Ledger, r: Received)
    returns (after: Ledger)
    requires Agrees(env, base, log, After(env, base, log), commands, l) && Partitions(l, |log|)
    requires Sane(After(env, base, log))
    ensures var (st, more) := Decrypt(env, After(env, base, log), r);
      Agrees(env, base, log + [r], st, commands + more, after) && Partitions(after, |log| + 1)
  {
    hide After, Recover, Learn, Agrees, Partitions, Sane, ParseUnder, Hold;
    var st, n, more := After(env, base, log), |log|, log + [r];
    assert commands + [] == commands && more[..n] == log;
    AgreesGrows(env, base, log, st, commands, l, r);
    OrderedWithin(env, base, log, st, commands, l);
    PartitionsGrows(l, n);
    var keyed := Meeting(env, st, r);
    if keyed.dead || |r.message| < FRAMING_SIZE {
      PlaceIgnored(env, base, more, keyed, commands, l);
      after := if |r.message| < FRAMING_SIZE then l.(short := l.short + [n]) else l.(lost := l.lost + [n]);
    } else {
      MeetingKeeps(env, st, r);
      match ParseUnder(r.message, keyed.key.value)
      case Some(p) =>
        PlaceParsed(env, base, more, keyed, commands, l);
        var handed := Decrypt(env, st, r).1;
        assert commands + handed == commands + [CommandOf(p, r.fromServer)] + handed[1..];
        after := if keyed.session then l.(late := l.late + [n]) else l.(early := l.early + [n]);
        after := LearnAgrees(env, base, more, keyed, commands + [CommandOf(p, r.fromServer)], after, p, r.fromServer);
      case None =>
        if keyed.session {
          PlaceBroken(env, base, more, keyed, commands, l);
          after := l.(broken := l.broken + [n]);
        } else {
          PlaceHeld(env, base, more, keyed, commands, l);
          after := if keyed.waitingBytes + |r.message| <= WAITING_CAP then l.(waiting := l.waiting + [n])
                   else l.(dropped := l.dropped + [n]);
          if Hold(keyed, r).seeds != [] {
            HoldKeepsKey(keyed, r);
            after := RecoverAgrees(env, base, more, Hold(keyed, r), commands, after);
          }
        }
    }
  }

  lemma OrderedWithin(env: Environment, base: State, log: seq<Received>, st: State, commands: seq<Command>, l: Ledger)
    requires Agrees(env, base, log, st, commands, l)
    ensures Ordered(l, |log|)
  {}

  lemma MeetingKeeps(env: Environment, st: State, r: Received)
    requires Sane(st) && !Meeting(env, st, r).dead && |r.message| >= FRAMING_SIZE
    ensures var keyed := Meeting(env, st, r);
      && Sane(keyed) && keyed.key.Some? && keyed.waitingBytes == st.waitingBytes && keyed == WithKey(env, st, r.message)
  {}

  lemma HoldKeepsKey(st: State, r: Received)
    ensures var held := Hold(st, r); held.session == st.session && held.dead == st.dead && held.key == st.key
  {}

  /** Learning the seed halves, and the recovery that may follow, keep the ledger. */
  lemma LearnAgrees(env: Environment, base: State, log: seq<Received>, st: State, commands: seq<Command>, l: Ledger,
                    p: Parsed, fromServer: bool) returns (after: Ledger)
    requires Agrees(env, base, log, st, commands, l) && Partitions(l, |log|)
    requires Sane(st) && !st.dead && st.key.Some?
    ensures var learned := Learn(env, st, p, fromServer);
      var (result, replayed) := if learned.waiting != [] && learned.seeds != [] then Recover(env,
          learned) else (learned, []);
      Agrees(env, base, log, result, commands + replayed, after) && Partitions(after, |log|)
  {
    hide Recover, Partitions, At, AllOverCap, Ordered, DispatchKey, NothingLong, ReplayUnder, AllParse, NoneParse,
        HeldBytes;
    var learned := Learn(env, st, p, fromServer);
    assert Agrees(env, base, log, learned, commands, l);
    assert commands + [] == commands;
    after := l;
    if learned.waiting != [] && learned.seeds != [] {
      after := RecoverAgrees(env, base, log, learned, commands, l);
    }
  }

  /** Over every run on one connection each message has exactly one place in the ledger: handed
      out, counted broken, waiting, dropped over the cap, too short, or, once the connection is
      dead, lost. What is handed out is the messages of the dispatch key and then those of the
      session key, each in arrival order; and no message is dropped or held back that its key
      parses. */
  lemma {:induction false} EveryMessageIsAccountedFor(env: Environment, broken: nat, decrypted: bool,
                        log: seq<Received>)
    returns (l: Ledger)
    ensures var base := Fresh(broken, decrypted);
      Agrees(env, base, log, After(env, base, log), Emitted(env, base, log), l) && Partitions(l, |log|)
  {
    hide Agrees, Partitions, Decrypt;
    var base := Fresh(broken, decrypted);
    if log == [] {
      l := Ledger([], [], [], [], [], [], []);
      FreshAgrees(env, base);
    } else {
      var front, last := log[..|log| - 1], log[|log| - 1];
      l := EveryMessageIsAccountedFor(env, broken, decrypted, front);
      RunsAreSane(env, broken, decrypted, front);
      l := DecryptAgrees(env, base, front, Emitted(env, base, front), l, last);
      assert front + [last] == log;
    }
  }
}
