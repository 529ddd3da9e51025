/** The command channel of utils/reporter/json.py: one line buffer behind a blocking reader and a
    reader that never blocks, a cancel that stays, and a skip for one file. What the pipe gives to
    each read, and JSON, are parameters. */
module CommandChannel {
  import opened Bytes

  const NEWLINE: byte := 0x0A

  type file = string

  /** A command as its parser gives it. A skip or an answer may come without its field. */
  datatype Command = Cancel | Skip(file: Option<file>) | Answer(id: nat, value: Option<bool>) | Other

  /** A blocking reader decodes and strips a line before it parses it; the other parses raw bytes. */
  datatype Parsers = Parsers(asked: seq<byte> -> Option<Command>, drained: seq<byte> -> Option<Command>,
      hangupCancels: bool)

  datatype Source = Asked | Drained | Typed

  /** A line that was taken, and by whom: typed lines are those of a console or file, not the pipe. */
  datatype Taken = Taken(source: Source, line: seq<byte>)

  /** What a look at the pipe finds. No bytes means that none are waiting. */
  datatype Peek = HungUp | Ready(bytes: seq<byte>)

  /** The reporter's fields, and what it has read and taken so far. `checked` is how much was taken
      when the last skip was asked about. */
  datatype State = State(buf: seq<byte>, piped: bool, cancelled: bool, skipFile: Option<file>,
      currentFile: Option<file>,
                         questions: nat, received: seq<byte>, taken: seq<Taken>, checked: nat, hungUp: bool)

  function Fresh(piped: bool): State {
    State([], piped, false, None, None, 0, [], [], 0, false)
  }

  // ----- Lines

  function LineEnd(buf: seq<byte>): (end: nat)
    ensures end <= |buf| && NEWLINE !in buf[..end] && (end < |buf| ==> buf[end] == NEWLINE)
  {
    if buf == [] || buf[0] == NEWLINE then 0 else 1 + LineEnd(buf[1..])
  }

  predicate HasLine(buf: seq<byte>) {
    LineEnd(buf) < |buf|
  }

  /** The complete lines of a byte stream. */
  function Lines(stream: seq<byte>): seq<seq<byte>>
    decreases |stream|
  {
    if !HasLine(stream) then [] else [stream[..LineEnd(stream)]] + Lines(stream[LineEnd(stream) + 1..])
  }

  // ----- Commands

  function CommandOf(env: Parsers, t: Taken): Option<Command> {
    if t.source.Drained? then env.drained(t.line) else env.asked(t.line)
  }

  /** `take_command`, for a line that parses. */
  function TakeCommand(st: State, c: Option<Command>): (after: State)
    ensures after == st.(cancelled := after.cancelled, skipFile := after.skipFile)
  {
    match c
    case Some(Cancel) => st.(cancelled := true)
    case Some(Skip(f)) => st.(skipFile := f)
    case _ => st
  }

  /** Takes the first line of the buffer. */
  function TakeLine(env: Parsers, st: State, source: Source): State
    requires HasLine(st.buf)
  {
    var end := LineEnd(st.buf);
    var t := Taken(source, st.buf[..end]);
    TakeCommand(st.(buf := st.buf[end + 1..], taken := st.taken + [t]), CommandOf(env, t))
  }

  function ReadIn(st: State, bytes: seq<byte>): State {
    st.(buf := st.buf + bytes, received := st.received + bytes)
  }

  // ----- The reader that never blocks

  /** Everything waiting is read, up to a hang-up. */
  function ReadWaiting(env: Parsers, st: State, peeks: seq<Peek>): State
    decreases |peeks|
  {
    if peeks == [] then st
    else
      match peeks[0]
      case HungUp => st.(piped := false, hungUp := true, cancelled := env.hangupCancels)
      case Ready(bytes) => if bytes == [] then st else ReadWaiting(env, ReadIn(st, bytes), peeks[1..])
  }

  function TakeAll(env: Parsers, st: State): State
    decreases |st.buf|
  {
    if !HasLine(st.buf) then st else TakeAll(env, TakeLine(env, st, Drained))
  }

  function Drain(env: Parsers, st: State, peeks: seq<Peek>): State {
    if st.cancelled || !st.piped then st else TakeAll(env, ReadWaiting(env, st, peeks))
  }

  // ----- The blocking reader

  datatype Next = Next(st: State, got: bool, input: seq<seq<byte>>)

  /** A line for `ask`, if one comes before the stream ends. On a pipe `input` is what successive
      reads return, elsewhere it is lines. */
  function NextLine(env: Parsers, st: State, input: seq<seq<byte>>): (next: Next)
    ensures next.got ==> |next.input| < |input| || (|next.input| == |input| && |next.st.buf| < |st.buf|)
    ensures next.got ==> |next.st.taken| == |st.taken| + 1
    decreases |input|
  {
    if !st.piped then
      if input == [] || input[0] == [] then Next(st, false, input)
      else
        var t := Taken(Typed, input[0]);
        Next(TakeCommand(st.(taken := st.taken + [t]), CommandOf(env, t)), true, input[1..])
    else if HasLine(st.buf) then Next(TakeLine(env, st, Asked), true, input)
    else if input == [] || input[0] == [] then Next(st, false, input)
    else NextLine(env, ReadIn(st, input[0]), input[1..])
  }

  function LastCommand(env: Parsers, st: State): Option<Command>
    requires st.taken != []
  {
    CommandOf(env, st.taken[|st.taken| - 1])
  }

  /** The answer a command gives to question `id`, if it is one. */
  function AnswerTo(c: Option<Command>, id: nat, default: bool): Option<bool> {
    if c.Some? && c.value.Answer? && c.value.id == id then
      Some(if c.value.value.Some? then c.value.value.value else default)
    else None
  }

  function AskFor(env: Parsers, st: State, input: seq<seq<byte>>, id: nat, default: bool): (bool, State)
    decreases |input|, |st.buf|
  {
    var next := NextLine(env, st, input);
    if !next.got || next.st.cancelled then (default, next.st)
    else
      match AnswerTo(LastCommand(env, next.st), id, default)
      case Some(answer) => (answer, next.st)
      case None => AskFor(env, next.st, next.input, id, default)
  }

  function Ask(env: Parsers, st: State, input: seq<seq<byte>>, default: bool): (bool, State) {
    if st.cancelled then (default, st)
    else AskFor(env, st.(questions := st.questions + 1), input, st.questions, default)
  }

  // ----- What the stages ask

  /** `skip_requested`. */
  function SkipRequested(env: Parsers, st: State, peeks: seq<Peek>): (bool, State) {
    var drained := Drain(env, st, peeks);
    (drained.skipFile.Some? && drained.skipFile == drained.currentFile,
     drained.(skipFile := None, checked := |drained.taken|))
  }

  lemma NextOnPipe(env: Parsers, st: State, input: seq<seq<byte>>)
    requires st.piped
    ensures NextLine(env, st, input)
         == if HasLine(st.buf) then Next(TakeLine(env, st, Asked), true, input)
            else if input == [] || input[0] == [] then Next(st, false, input)
            else NextLine(env, ReadIn(st, input[0]), input[1..])
  {
    hide LineEnd, CommandOf, TakeLine;
  }

  lemma LastTaken(env: Parsers, st: State, t: Taken)
    ensures var after := TakeCommand(st.(taken := st.taken + [t]), CommandOf(env, t));
      after.taken != [] && LastCommand(env, after) == CommandOf(env, t)
  {
    hide CommandOf;
  }

  datatype Stop = Continue | Cancelled | Skipped

  /** `checkpoint`: a cancel first, then a skip. */
  function Checkpoint(env: Parsers, st: State, first: seq<Peek>, second: seq<Peek>): (Stop, State) {
    var drained := Drain(env, st, first);
    if drained.cancelled then (Cancelled, drained)
    else
      var (skip, after) := SkipRequested(env, drained, second);
      (if skip then Skipped else Continue, after)
  }

  // ----- The class

  class JsonReporter {
    const env: Parsers
    var stdinBuf: seq<byte>
    var piped: bool
    var cancelled: bool
    var skipFile: Option<file>
    var currentFile: Option<file>
    var questions: nat
    ghost var received: seq<byte>
    ghost var taken: seq<Taken>
    ghost var checked: nat
    ghost var hungUp: bool

    ghost function Now(): State
      reads this
    {
      State(stdinBuf, piped, cancelled, skipFile, currentFile, questions, received, taken, checked, hungUp)
    }

    constructor (env: Parsers, piped: bool)
      ensures Now() == Fresh(piped) && this.env == env
    {
      this.env, this.piped := env, piped;
      stdinBuf, cancelled, skipFile, currentFile, questions := [], false, None, None, 0;
      received, taken, checked, hungUp := [], [], 0, false;
    }

    /** `event("job_start", file=...)`. */
    method JobStart(f: Option<file>)
      modifies this
      ensures Now() == old(Now()).(currentFile := f)
    {
      currentFile := f;
    }

    /** `pop_line`. */
    method PopLine() returns (line: Option<seq<byte>>)
      modifies this`stdinBuf
      ensures line.Some? <==> HasLine(old(stdinBuf))
      ensures line.Some? ==> line.value + [NEWLINE] + stdinBuf == old(stdinBuf) && NEWLINE !in line.value
      ensures line.Some? ==>
        line.value == old(stdinBuf)[..LineEnd(old(stdinBuf))] && stdinBuf == old(stdinBuf)[LineEnd(old(stdinBuf)) + 1..]
      ensures line.None? ==> stdinBuf == old(stdinBuf)
    {
      var end := 0;
      while end < |stdinBuf| && stdinBuf[end] != NEWLINE
        invariant end <= |stdinBuf| && LineEnd(stdinBuf) == end + LineEnd(stdinBuf[end..])
      {
        assert stdinBuf[end..][1..] == stdinBuf[end + 1..];
        end := end + 1;
      }
      if end == |stdinBuf| {
        return None;
      }
      line := Some(stdinBuf[..end]);
      assert stdinBuf == stdinBuf[..end] + [NEWLINE] + stdinBuf[end + 1..];
      stdinBuf := stdinBuf[end + 1..];
    }

    /** `take_command` on a line that was just taken. */
    method TakeOne(source: Source, line: seq<byte>) returns (command: Option<Command>)
      modifies this`cancelled, this`skipFile, this`taken
      ensures command == CommandOf(env, Taken(source, line))
      ensures Now() == TakeCommand(old(Now()).(taken := old(taken) + [Taken(source, line)]), command)
    {
      taken := taken + [Taken(source, line)];
      command := if source.Drained? then env.drained(line) else env.asked(line);
      if command.Some? {
        match command.value
        case Cancel => cancelled := true;
        case Skip(f) => skipFile := f;
        case _ =>
      }
    }

    /** `next_line`, and the command on the line. */
    method TakeNext(input: seq<seq<byte>>) returns (got: bool, command: Option<Command>, rest: seq<seq<byte>>)
      modifies this
      ensures Next(Now(), got, rest) == NextLine(env, old(Now()), input)
      ensures got ==> taken != [] && command == LastCommand(env, Now())
    {
      hide LineEnd, CommandOf, TakeLine, TakeCommand, NextLine;
      command := None;
      rest := input;
      if !piped {
        got, command, rest := TakeTyped(input);
        return;
      }
      ghost var st := Now();
      var line := PopLine();
      while line.None?
        invariant piped && st.piped && NextLine(env, st, rest) == NextLine(env, old(Now()), input)
        invariant Popped(st, Now(), line)
        decreases |rest|, if line.None? then 1 else 0
      {
        NextOnPipe(env, st, rest);
        if rest == [] || rest[0] == [] {
          return false, None, rest;
        }
        stdinBuf := stdinBuf + rest[0];
        received := received + rest[0];
        rest := rest[1..];
        st := Now();
        line := PopLine();
      }
      NextOnPipe(env, st, rest);
      ghost var popped := Now();
      command := TakeOne(Asked, line.value);
      PoppedIsTaken(env, st, popped, line.value, Asked);
      LastTaken(env, popped, Taken(Asked, line.value));
      got := true;
    }

    /** On a console a read is a line. */
    method TakeTyped(input: seq<seq<byte>>)
      returns (got: bool, command: Option<Command>, rest: seq<seq<byte>>)
      requires !piped
      modifies this
      ensures Next(Now(), got, rest) == NextLine(env, old(Now()), input)
      ensures got ==> taken != [] && command == LastCommand(env, Now())
    {
      hide CommandOf;
      if input == [] || input[0] == [] {
        return false, None, input;
      }
      command := TakeOne(Typed, input[0]);
      got, rest := true, input[1..];
    }
  
    /** `ask`. */
    method AskQuestion(input: seq<seq<byte>>, default: bool) returns (answer: bool)
      modifies this
      ensures (answer, Now()) == Ask(env, old(Now()), input, default)
    {
      hide NextLine, CommandOf, AnswerTo;
      if cancelled {
        return default;
      }
      var id := questions;
      questions := questions + 1;
      var rest := input;
      while true
        invariant AskFor(env, Now(), rest, id, default) == Ask(env, old(Now()), input, default)
        decreases |rest|, |stdinBuf|
      {
        var got, command, more := TakeNext(rest);
        rest := more;
        if !got || cancelled {
          return default;
        }
        var answered := AnswerTo(command, id, default);
        if answered.Some? {
          return answered.value;
        }
      }
    }

    /** `drain_commands`. */
    method DrainCommands(peeks: seq<Peek>)
      modifies this
      ensures Now() == Drain(env, old(Now()), peeks)
    {
      hide TakeAll;
      if cancelled || !piped {
        return;
      }
      ReadPipe(peeks);
      TakeLines();
    }

    method ReadPipe(peeks: seq<Peek>)
      modifies this
      ensures Now() == ReadWaiting(env, old(Now()), peeks)
    {
      var k := 0;
      while k < |peeks|
        invariant k <= |peeks| && ReadWaiting(env, Now(), peeks[k..]) == ReadWaiting(env, old(Now()), peeks)
      {
        match peeks[k]
        case HungUp =>
          piped, hungUp, cancelled := false, true, env.hangupCancels;
          return;
        case Ready(bytes) =>
          if bytes == [] {
            return;
          }
          stdinBuf, received := stdinBuf + bytes, received + bytes;
          k := k + 1;
      }
    }

    method TakeLines()
      modifies this
      ensures Now() == TakeAll(env, old(Now()))
    {
      hide CommandOf, LineEnd, TakeCommand, TakeAll, TakeLine;
      ghost var st := Now();
      var line := PopLine();
      while line.Some?
        invariant TakeAll(env, st) == TakeAll(env, old(Now())) && Popped(st, Now(), line)
        decreases |st.buf|
      {
        PoppedIsTaken(env, st, Now(), line.value, Drained);
        TakeAllUnfolds(env, st);
        var _ := TakeOne(Drained, line.value);
        st := Now();
        line := PopLine();
      }
      TakeAllUnfolds(env, st);
    }

    method CancelRequested(peeks: seq<Peek>) returns (cancel: bool)
      modifies this
      ensures Now() == Drain(env, old(Now()), peeks) && cancel == Now().cancelled
    {
      DrainCommands(peeks);
      cancel := cancelled;
    }

    method TakeSkip(peeks: seq<Peek>) returns (skip: bool)
      modifies this
      ensures (skip, Now()) == SkipRequested(env, old(Now()), peeks)
    {
      hide Drain;
      DrainCommands(peeks);
      checked := |taken|;
      if skipFile.None? {
        return false;
      }
      skip := skipFile == currentFile;
      skipFile := None;
    }

    /** `checkpoint` of the reporter's base class. */
    method StopHere(first: seq<Peek>, second: seq<Peek>) returns (stop: Stop)
      modifies this
      ensures (stop, Now()) == Checkpoint(env, old(Now()), first, second)
    {
      hide Drain;
      var cancel := CancelRequested(first);
      if cancel {
        return Cancelled;
      }
      var skip := TakeSkip(second);
      stop := if skip then Skipped else Continue;
    }
  }

  /** Between two states a line was popped, if there was one. */
  ghost predicate Popped(st: State, now: State, line: Option<seq<byte>>) {
    match line
    case None => !HasLine(st.buf) && now == st
    case Some(l) =>
      HasLine(st.buf) && l == st.buf[..LineEnd(st.buf)] && now == st.(buf := st.buf[LineEnd(st.buf) + 1..])
  }

  lemma PoppedIsTaken(env: Parsers, st: State, now: State, line: seq<byte>, source: Source)
    requires Popped(st, now, Some(line))
    ensures HasLine(st.buf)
    ensures TakeLine(env, st, source)
         == TakeCommand(now.(taken := now.taken + [Taken(source, line)]), CommandOf(env, Taken(source, line)))
    ensures |TakeLine(env, st, source).buf| < |st.buf|
  {}

  lemma TakeAllUnfolds(env: Parsers, st: State)
    ensures TakeAll(env, st) == if HasLine(st.buf) then TakeAll(env, TakeLine(env, st, Drained)) else st
  {}

  // ----- What every step keeps

  /** The lines that came through the pipe. */
  ghost function PipeLines(taken: seq<Taken>): seq<seq<byte>> {
    if taken == [] then []
    else
      var last := taken[|taken| - 1];
      PipeLines(taken[..|taken| - 1]) + if last.source.Typed? then [] else [last.line]
  }

  /** Lines as they lie in a byte stream. */
  ghost function Joined(lines: seq<seq<byte>>): seq<byte> {
    if lines == [] then [] else Joined(lines[..|lines| - 1]) + lines[|lines| - 1] + [0x0A]
  }

  ghost predicate AllClean(lines: seq<seq<byte>>) {
    forall k :: 0 <= k < |lines| ==> 0x0A !in lines[k]
  }

  ghost predicate SomeCancel(env: Parsers, taken: seq<Taken>) {
    exists k :: 0 <= k < |taken| && CommandOf(env, taken[k]) == Some(Cancel)
  }

  /** The file of the last skip in the list. */
  ghost function LastSkip(env: Parsers, taken: seq<Taken>): Option<file> {
    if taken == [] then None
    else
      match CommandOf(env, taken[|taken| - 1])
      case Some(Skip(f)) => f
      case _ => LastSkip(env, taken[..|taken| - 1])
  }

  /** What holds between any two calls: the lines taken and the buffer are what was read; the
      reporter is cancelled if a cancel was taken or a hang-up counts as one; and a skip is pending
      if one was taken since the last was asked about. */
  ghost predicate Kept(env: Parsers, st: State) {
    && Joined(PipeLines(st.taken)) + st.buf == st.received && AllClean(PipeLines(st.taken))
    && (st.cancelled <==> SomeCancel(env, st.taken) || (st.hungUp && env.hangupCancels))
    && st.checked <= |st.taken| && st.skipFile == LastSkip(env, st.taken[st.checked..])
    && (st.hungUp ==> !st.piped)
  }

  /** Nothing read or taken is forgotten, and neither is a cancel. */
  ghost predicate Follows(st: State, after: State) {
    st.received <= after.received && st.taken <= after.taken && st.checked <= after.checked
    && (st.cancelled ==> after.cancelled)
  }

  lemma PipeLinesGrow(taken: seq<Taken>, t: Taken)
    ensures PipeLines(taken + [t]) == PipeLines(taken) + if t.source.Typed? then [] else [t.line]
    ensures !t.source.Typed? ==> Joined(PipeLines(taken + [t])) == Joined(PipeLines(taken)) + t.line + [NEWLINE]
  {
    assert (taken + [t])[..|taken|] == taken;
    var lines := PipeLines(taken) + [t.line];
    assert lines[..|lines| - 1] == PipeLines(taken);
  }

  lemma CommandsGrow(env: Parsers, taken: seq<Taken>, t: Taken, checked: nat)
    requires checked <= |taken|
    ensures SomeCancel(env, taken + [t]) <==> SomeCancel(env, taken) || CommandOf(env, t) == Some(Cancel)
    ensures LastSkip(env, (taken + [t])[checked..])
         == match CommandOf(env, t) case Some(Skip(f)) => f case _ => LastSkip(env, taken[checked..])
  {
    hide CommandOf;
    var more := taken + [t];
    assert more[|taken|] == t && forall k :: 0 <= k < |taken| ==> more[k] == taken[k];
    var since := more[checked..];
    assert since[..|since| - 1] == taken[checked..] && since[|since| - 1] == t;
  }

  /** Taking a line that comes out of the buffer, or is typed, keeps everything. */
  lemma TakeKeeps(env: Parsers, st: State, t: Taken, buf: seq<byte>)
    requires Kept(env, st)
    requires if t.source.Typed? then buf == st.buf else NEWLINE !in t.line && t.line + [NEWLINE] + buf == st.buf
    ensures var after := TakeCommand(st.(buf := buf, taken := st.taken + [t]), CommandOf(env, t));
      Kept(env, after) && Follows(st, after)
  {
    hide CommandOf, PipeLines, Joined, SomeCancel, LastSkip;
    PipeLinesGrow(st.taken, t);
    CommandsGrow(env, st.taken, t, st.checked);
    assert PipeLines(st.taken) + [] == PipeLines(st.taken);
    if !t.source.Typed? {
      assert Joined(PipeLines(st.taken)) + t.line + [NEWLINE] + buf ==
          Joined(PipeLines(st.taken)) + (t.line + [NEWLINE] + buf);
    }
  }

  lemma LineTaken(buf: seq<byte>)
    requires HasLine(buf)
    ensures var end := LineEnd(buf);
      buf[..end] + [NEWLINE] + buf[end + 1..] == buf && NEWLINE !in buf[..end]
  {}

  lemma TakeLineKeeps(env: Parsers, st: State, source: Source)
    requires Kept(env, st) && HasLine(st.buf) && !source.Typed?
    ensures Kept(env, TakeLine(env, st, source)) && Follows(st, TakeLine(env, st, source))
  {
    hide Kept, Follows, LineEnd, TakeCommand;
    LineTaken(st.buf);
    TakeKeeps(env, st, Taken(source, st.buf[..LineEnd(st.buf)]), st.buf[LineEnd(st.buf) + 1..]);
  }

  lemma ReadKeeps(env: Parsers, st: State, bytes: seq<byte>)
    requires Kept(env, st)
    ensures Kept(env, ReadIn(st, bytes)) && Follows(st, ReadIn(st, bytes))
  {
    hide PipeLines, Joined, SomeCancel, LastSkip;
    assert Joined(PipeLines(st.taken)) + (st.buf + bytes) == st.received + bytes;
  }

  lemma FollowsOn(a: State, b: State, c: State)
    requires Follows(a, b) && Follows(b, c)
    ensures Follows(a, c)
  {}

  lemma FollowsItself(st: State)
    ensures Follows(st, st)
  {}

  lemma {:induction false} ReadWaitingKeeps(env: Parsers, st: State, peeks: seq<Peek>)
    requires Kept(env, st) && !st.cancelled && st.piped
    ensures var after := ReadWaiting(env, st, peeks); Kept(env, after) && Follows(st, after)
    decreases |peeks|
  {
    hide PipeLines, Joined, SomeCancel, LastSkip;
    if peeks != [] && peeks[0].Ready? && peeks[0].bytes != [] {
      var more := ReadIn(st, peeks[0].bytes);
      ReadKeeps(env, st, peeks[0].bytes);
      ReadWaitingKeeps(env, more, peeks[1..]);
      FollowsOn(st, more, ReadWaiting(env, more, peeks[1..]));
    }
  }

  lemma {:induction false} TakeAllKeeps(env: Parsers, st: State)
    requires Kept(env, st)
    ensures var after := TakeAll(env, st);
      Kept(env, after) && Follows(st, after) && !HasLine(after.buf) && after.currentFile == st.currentFile
      && after.checked == st.checked && after.received == st.received
    decreases |st.buf|
  {
    hide Kept, Follows, LineEnd, CommandOf;
    FollowsItself(st);
    if HasLine(st.buf) {
      TakeLineKeeps(env, st, Drained);
      TakeAllKeeps(env, TakeLine(env, st, Drained));
      FollowsOn(st, TakeLine(env, st, Drained), TakeAll(env, st));
    }
  }

  lemma {:induction false} ReadWaitingLeaves(env: Parsers, st: State, peeks: seq<Peek>)
    ensures var after := ReadWaiting(env, st, peeks);
      after.checked == st.checked && after.currentFile == st.currentFile && after.taken == st.taken
    decreases |peeks|
  {
    if peeks != [] && peeks[0].Ready? && peeks[0].bytes != [] {
      ReadWaitingLeaves(env, ReadIn(st, peeks[0].bytes), peeks[1..]);
    }
  }

  /** A drain that is not cut off by a cancel leaves no complete line behind. */
  lemma DrainKeeps(env: Parsers, st: State, peeks: seq<Peek>)
    requires Kept(env, st)
    ensures var after := Drain(env, st, peeks);
      && Kept(env, after) && Follows(st, after)
      && after.currentFile == st.currentFile && after.checked == st.checked
      && (!st.cancelled && st.piped ==> !HasLine(after.buf))
      && (st.cancelled ==> after == st)
  {
    hide Kept, Follows, ReadWaiting, TakeAll, HasLine;
    FollowsItself(st);
    if !st.cancelled && st.piped {
      var waiting := ReadWaiting(env, st, peeks);
      ReadWaitingKeeps(env, st, peeks);
      ReadWaitingLeaves(env, st, peeks);
      TakeAllKeeps(env, waiting);
      FollowsOn(st, waiting, TakeAll(env, waiting));
    }
  }

  lemma {:induction false} NextLineKeeps(env: Parsers, st: State, input: seq<seq<byte>>)
    requires Kept(env, st)
    ensures var next := NextLine(env, st, input);
      && Kept(env, next.st) && Follows(st, next.st)
      && next.st.currentFile == st.currentFile && next.st.checked == st.checked
      && (if next.got then
            && |next.st.taken| == |st.taken| + 1 && next.st.taken[..|st.taken|] == st.taken
            && next.st.cancelled == (st.cancelled || LastCommand(env, next.st) == Some(Cancel))
          else next.st.taken == st.taken && next.st.cancelled == st.cancelled)
    decreases |input|
  {
    hide Kept, Follows, LineEnd, CommandOf, HasLine;
    FollowsItself(st);
    if !st.piped {
      if input != [] && input[0] != [] {
        TakeKeeps(env, st, Taken(Typed, input[0]), st.buf);
      }
    } else if HasLine(st.buf) {
      TakeLineKeeps(env, st, Asked);
    } else if input != [] && input[0] != [] {
      var more := ReadIn(st, input[0]);
      ReadKeeps(env, st, input[0]);
      NextLineKeeps(env, more, input[1..]);
      FollowsOn(st, more, NextLine(env, more, input[1..]).st);
    }
  }

  /** A command that ends a question: a cancel, or the answer to it. */
  ghost predicate Decides(c: Option<Command>, id: nat) {
    c == Some(Cancel) || Answers(c, id)
  }

  ghost predicate Answers(c: Option<Command>, id: nat) {
    c.Some? && c.value.Answer? && c.value.id == id
  }

  /** The lines a question took: only the last may decide it, and the answer is what that one says,
      or the default. */
  ghost predicate Decided(env: Parsers, lines: seq<Taken>, id: nat, default: bool, answer: bool) {
    && (forall k :: 0 <= k < |lines| - 1 ==> !Decides(CommandOf(env, lines[k]), id))
    && answer == (if lines == [] then default
                  else
                    var last := CommandOf(env, lines[|lines| - 1]);
                    if Answers(last, id) && last.value.value.Some? then last.value.value.value else default)
  }

  lemma DecidedByOne(env: Parsers, t: Taken, id: nat, default: bool)
    ensures Decided(env, [], id, default, default)
    ensures match AnswerTo(CommandOf(env, t), id, default)
            case Some(answer) => Decided(env, [t], id, default, answer)
            case None => Decided(env, [t], id, default, default)
  {}

  lemma DecidedLater(env: Parsers, lines: seq<Taken>, id: nat, default: bool, answer: bool)
    requires lines != [] && !Decides(CommandOf(env, lines[0]), id) && Decided(env, lines[1..], id, default, answer)
    ensures Decided(env, lines, id, default, answer)
  {
    var rest := lines[1..];
    forall k | 0 <= k < |lines| - 1 ensures !Decides(CommandOf(env, lines[k]), id) {
      assert k > 0 ==> rest[k - 1] == lines[k];
    }
    assert rest != [] ==> rest[|rest| - 1] == lines[|lines| - 1];
  }

  lemma TakenFollows(st: State, after: State)
    requires Follows(st, after)
    ensures st.taken <= after.taken
  {}

  /** The loop of a question. */
  lemma {:induction false} AskForKeeps(env: Parsers, st: State, input: seq<seq<byte>>, id: nat, default: bool)
    requires Kept(env, st) && !st.cancelled
    ensures var (answer, after) := AskFor(env, st, input, id, default);
      && Kept(env, after) && Follows(st, after) && after.currentFile == st.currentFile && after.checked == st.checked
      && Decided(env, after.taken[|st.taken|..], id, default, answer)
    decreases |input|, |st.buf|
  {
    hide Kept, Follows, CommandOf, Decided, NextLine;
    var next := NextLine(env, st, input);
    NextLineKeeps(env, st, input);
    if !next.got {
      assert next.st.taken[|st.taken|..] == [];
      DecidedByOne(env, Taken(Asked, []), id, default);
    } else {
      var t := next.st.taken[|st.taken|];
      assert next.st.taken[|st.taken|..] == [t];
      DecidedByOne(env, t, id, default);
      if !next.st.cancelled && AnswerTo(LastCommand(env, next.st), id, default).None? {
        AskForKeeps(env, next.st, next.input, id, default);
        var (answer, after) := AskFor(env, next.st, next.input, id, default);
        FollowsOn(st, next.st, after);
        TakenFollows(next.st, after);
        assert after.taken[|st.taken|..][1..] == after.taken[|next.st.taken|..];
        DecidedLater(env, after.taken[|st.taken|..], id, default, answer);
      }
    }
  }

  // ----- How far a reader reads

  ghost function Concat(chunks: seq<seq<byte>>): seq<byte> {
    if chunks == [] then [] else chunks[0] + Concat(chunks[1..])
  }

  lemma ConcatSplit(chunks: seq<seq<byte>>, n: nat)
    requires 0 < n <= |chunks|
    ensures Concat(chunks[..n]) == chunks[0] + Concat(chunks[1..][..n - 1]) && Concat(chunks[..0]) == []
  {
    assert chunks[..n][1..] == chunks[1..][..n - 1];
  }

  lemma {:induction false} ConcatTwice(chunks: seq<seq<byte>>, n: nat, m: nat)
    requires n + m <= |chunks|
    ensures Concat(chunks[..n + m]) == Concat(chunks[..n]) + Concat(chunks[n..][..m])
    decreases n
  {
    if n == 0 {
      assert chunks[0..] == chunks && chunks[..0] == [];
      assert [] + Concat(chunks[..m]) == Concat(chunks[..m]);
    } else {
      ConcatSplit(chunks, n);
      ConcatSplit(chunks, n + m);
      ConcatTwice(chunks[1..], n - 1, m);
      assert chunks[1..][n - 1..] == chunks[n..];
    }
  }

  /** The input ends at `n`: there is no more, or what comes is empty. */
  ghost predicate EndsAt(input: seq<seq<byte>>, n: nat) {
    n == |input| || (n < |input| && input[n] == [])
  }

  /** What the first `n` chunks of the input add: bytes on a pipe, typed lines on a console. */
  ghost predicate ReadsChunks(st: State, after: State, input: seq<seq<byte>>, n: nat) {
    && n <= |input| && after.piped == st.piped && after.hungUp == st.hungUp
    && (if st.piped then after.received == st.received + Concat(input[..n])
        else after.received == st.received && after.taken == st.taken + TypedLines(input[..n]))
  }

  ghost function TypedLines(lines: seq<seq<byte>>): (typed: seq<Taken>)
    ensures |typed| == |lines|
  {
    seq(|lines|, k requires 0 <= k < |lines| => Taken(Typed, lines[k]))
  }

  lemma ReadsNothing(st: State, after: State, input: seq<seq<byte>>)
    requires after.piped == st.piped && after.hungUp == st.hungUp && after.received == st.received
    requires !st.piped ==> after.taken == st.taken
    ensures ReadsChunks(st, after, input, 0)
  {
    assert input[..0] == [] && st.received + [] == st.received && st.taken + [] == st.taken;
  }

  lemma ReadsOne(st: State, after: State, input: seq<seq<byte>>)
    requires input != [] && after.piped == st.piped && after.hungUp == st.hungUp
    requires if st.piped then after.received == st.received + input[0]
             else after.received == st.received && after.taken == st.taken + [Taken(Typed, input[0])]
    ensures ReadsChunks(st, after, input, 1)
  {
    ConcatSplit(input, 1);
    assert input[1..][..0] == [] && input[0] + [] == input[0];
    assert TypedLines(input[..1]) == [Taken(Typed, input[0])];
  }

  lemma ReadsMore(st: State, mid: State, after: State, input: seq<seq<byte>>, n: nat, m: nat)
    requires ReadsChunks(st, mid, input, n) && ReadsChunks(mid, after, input[n..], m)
    ensures ReadsChunks(st, after, input, n + m)
  {
    hide Concat, TypedLines;
    ConcatTwice(input, n, m);
    TypedTwice(input, n, m);
    if st.piped {
      Regroup(st.received, Concat(input[..n]), Concat(input[n..][..m]));
    } else {
      Regroup(st.taken, TypedLines(input[..n]), TypedLines(input[n..][..m]));
    }
  }

  lemma Regroup<T>(a: seq<T>, b: seq<T>, c: seq<T>)
    ensures a + b + c == a + (b + c)
  {}

  lemma TypedTwice(lines: seq<seq<byte>>, n: nat, m: nat)
    requires n + m <= |lines|
    ensures TypedLines(lines[..n + m]) == TypedLines(lines[..n]) + TypedLines(lines[n..][..m])
  {}

  /** One line for a question: without one the input has ended, with no complete line left behind. */
  lemma {:induction false} NextLineReads(env: Parsers, st: State, input: seq<seq<byte>>) returns (n: nat)
    ensures var next := NextLine(env, st, input);
      && ReadsChunks(st, next.st, input, n) && next.input == input[n..]
      && (!next.got ==> EndsAt(input, n) && (st.piped ==> !HasLine(next.st.buf)))
    decreases |input|
  {
    hide ReadsChunks, LineEnd, CommandOf, HasLine, Concat, TypedLines;
    var next := NextLine(env, st, input);
    assert input[0..] == input;
    n := 0;
    if st.piped && HasLine(st.buf) {
      ReadsNothing(st, next.st, input);
    } else if input == [] || input[0] == [] {
      ReadsNothing(st, next.st, input);
    } else if !st.piped {
      n := 1;
      ReadsOne(st, next.st, input);
    } else {
      var more := ReadIn(st, input[0]);
      ReadsOne(st, more, input);
      var m := NextLineReads(env, more, input[1..]);
      ReadsWithin(more, next.st, input[1..], m);
      ReadsMore(st, more, next.st, input, 1, m);
      n := 1 + m;
      assert input[1..][m..] == input[1 + m..];
    }
  }

  /** A question reads on, past lines that do not decide it, until one does or the input ends; and on
      a pipe it leaves no complete line behind then. */
  lemma {:induction false} AskForReads(env: Parsers, st: State, input: seq<seq<byte>>, id: nat, default: bool)
    returns (n: nat)
    requires Kept(env, st) && !st.cancelled
    ensures var after := AskFor(env, st, input, id, default).1;
      && ReadsChunks(st, after, input, n) && |st.taken| <= |after.taken|
      && ((|st.taken| < |after.taken| && Decides(CommandOf(env, after.taken[|after.taken| - 1]), id))
          || (EndsAt(input, n) && (st.piped ==> !HasLine(after.buf))))
    decreases |input|, |st.buf|
  {
    hide Kept, Follows, CommandOf, NextLine, ReadsChunks, HasLine;
    var next := NextLine(env, st, input);
    NextLineKeeps(env, st, input);
    n := NextLineReads(env, st, input);
    ReadsWithin(st, next.st, input, n);
    if next.got && !next.st.cancelled && AnswerTo(LastCommand(env, next.st), id, default).None? {
      var m := AskForReads(env, next.st, next.input, id, default);
      var after := AskFor(env, next.st, next.input, id, default).1;
      ReadsWithin(next.st, after, next.input, m);
      ReadsMore(st, next.st, after, input, n, m);
      n := n + m;
    }
  }

  /** So does `ask`, on the bytes or lines of its input. */
  lemma AskReadsOn(env: Parsers, st: State, input: seq<seq<byte>>, default: bool) returns (n: nat)
    requires Kept(env, st) && !st.cancelled
    ensures var after := Ask(env, st, input, default).1;
      && ReadsChunks(st, after, input, n) && |st.taken| <= |after.taken|
      && ((|st.taken| < |after.taken|
           && Decides(CommandOf(env, after.taken[|after.taken| - 1]), st.questions))
          || (EndsAt(input, n) && (st.piped ==> !HasLine(after.buf))))
  {
    hide CommandOf, AskFor, HasLine;
    var asking := st.(questions := st.questions + 1);
    assert Kept(env, asking);
    n := AskForReads(env, asking, input, st.questions, default);
  }

  /** Each question that is put has the next number. */
  lemma QuestionsAreNumbered(env: Parsers, st: State, input: seq<seq<byte>>, default: bool)
    ensures Ask(env, st, input, default).1.questions == st.questions + if st.cancelled then 0 else 1
  {
    if !st.cancelled {
      AskForNumbers(env, st.(questions := st.questions + 1), input, st.questions, default);
    }
  }

  lemma {:induction false} AskForNumbers(env: Parsers, st: State, input: seq<seq<byte>>, id: nat, default: bool)
    ensures AskFor(env, st, input, id, default).1.questions == st.questions
    decreases |input|, |st.buf|
  {
    hide CommandOf, NextLine;
    var next := NextLine(env, st, input);
    NextLineNumbers(env, st, input);
    if next.got && !next.st.cancelled && AnswerTo(LastCommand(env, next.st), id, default).None? {
      AskForNumbers(env, next.st, next.input, id, default);
    }
  }

  lemma {:induction false} NextLineNumbers(env: Parsers, st: State, input: seq<seq<byte>>)
    ensures NextLine(env, st, input).st.questions == st.questions
    decreases |input|
  {
    hide LineEnd, CommandOf;
    if st.piped && !HasLine(st.buf) && input != [] && input[0] != [] {
      NextLineNumbers(env, ReadIn(st, input[0]), input[1..]);
    }
  }

  lemma ReadsWithin(st: State, after: State, input: seq<seq<byte>>, n: nat)
    requires ReadsChunks(st, after, input, n)
    ensures n <= |input| && after.piped == st.piped
  {}

  /** The looks before the `n`-th found bytes waiting. */
  ghost predicate AllReady(peeks: seq<Peek>, n: nat)
    requires n <= |peeks|
  {
    forall k :: 0 <= k < n ==> peeks[k].Ready? && peeks[k].bytes != []
  }

  ghost function PeekedBytes(peeks: seq<Peek>, n: nat): seq<byte>
    requires n <= |peeks| && AllReady(peeks, n)
  {
    if n == 0 then [] else PeekedBytes(peeks, n - 1) + peeks[n - 1].bytes
  }

  lemma {:induction false} PeekedSplit(peeks: seq<Peek>, n: nat)
    requires 0 < n <= |peeks| && AllReady(peeks, n)
    ensures AllReady(peeks[1..], n - 1) && PeekedBytes(peeks, n) == peeks[0].bytes + PeekedBytes(peeks[1..], n - 1)
  {
    if n > 1 {
      PeekedSplit(peeks, n - 1);
    }
  }

  /** A look that never blocks reads what is waiting, look by look, up to one that finds nothing or
      that the other end hung up; and only the last ends the pipe. */
  lemma {:induction false} ReadWaitingReads(env: Parsers, st: State, peeks: seq<Peek>) returns (n: nat)
    ensures n <= |peeks| && AllReady(peeks, n) && (n == |peeks| || peeks[n] == HungUp || peeks[n] == Ready([]))
    ensures var after, ends := ReadWaiting(env, st, peeks), n < |peeks| && peeks[n].HungUp?;
      && after.received == st.received + PeekedBytes(peeks, n) && after.buf == st.buf + PeekedBytes(peeks, n)
      && after.piped == (st.piped && !ends) && after.hungUp == (st.hungUp || ends)
      && after.cancelled == (if ends then env.hangupCancels else st.cancelled)
    decreases |peeks|
  {
    hide PeekedBytes, AllReady;
    n := 0;
    NothingPeeked(peeks);
    assert st.received + [] == st.received && st.buf + [] == st.buf;
    if peeks != [] && peeks[0].Ready? && peeks[0].bytes != [] {
      var first := peeks[0].bytes;
      var more := ReadIn(st, first);
      var m := ReadWaitingReads(env, more, peeks[1..]);
      n := m + 1;
      ReadyMore(peeks, m);
      var rest := PeekedBytes(peeks[1..], m);
      assert st.received + first + rest == st.received + (first + rest);
      assert st.buf + first + rest == st.buf + (first + rest);
    }
  }

  lemma NothingPeeked(peeks: seq<Peek>)
    ensures AllReady(peeks, 0) && PeekedBytes(peeks, 0) == []
  {}

  lemma ReadyMore(peeks: seq<Peek>, m: nat)
    requires peeks != [] && peeks[0].Ready? && peeks[0].bytes != [] && m <= |peeks| - 1 && AllReady(peeks[1..], m)
    ensures AllReady(peeks, m + 1) && PeekedBytes(peeks, m + 1) == peeks[0].bytes + PeekedBytes(peeks[1..], m)
  {
    assert forall k :: 0 < k < m + 1 ==> peeks[k] == peeks[1..][k - 1];
    PeekedSplit(peeks, m + 1);
  }

  lemma {:induction false} TakeAllReads(env: Parsers, st: State)
    ensures var after := TakeAll(env, st);
      after.received == st.received && after.piped == st.piped && after.hungUp == st.hungUp
    decreases |st.buf|
  {
    hide LineEnd, CommandOf;
    if HasLine(st.buf) {
      TakeAllReads(env, TakeLine(env, st, Drained));
    }
  }

  /** What one drain reads, and when it finds the pipe at its end. */
  lemma DrainReads(env: Parsers, st: State, peeks: seq<Peek>) returns (n: nat)
    requires !st.cancelled && st.piped
    ensures n <= |peeks| && AllReady(peeks, n) && (n == |peeks| || peeks[n] == HungUp || peeks[n] == Ready([]))
    ensures var after, ends := Drain(env, st, peeks), n < |peeks| && peeks[n].HungUp?;
      && after.received == st.received + PeekedBytes(peeks, n)
      && after.piped == !ends && after.hungUp == (st.hungUp || ends)
  {
    hide ReadWaiting, TakeAll;
    n := ReadWaitingReads(env, st, peeks);
    TakeAllReads(env, ReadWaiting(env, st, peeks));
  }

  /** A question keeps everything, and is decided by the first line that cancels or answers it. */
  lemma AskKeeps(env: Parsers, st: State, input: seq<seq<byte>>, default: bool)
    requires Kept(env, st)
    ensures var (answer, after) := Ask(env, st, input, default);
      && Kept(env, after) && Follows(st, after) && after.currentFile == st.currentFile && after.checked == st.checked
      && (st.cancelled ==> after == st && answer == default)
      && (!st.cancelled ==> |st.taken| <= |after.taken| && Decided(env, after.taken[|st.taken|..], st.questions,
          default, answer))
  {
    hide CommandOf, Decided, AskFor, PipeLines, Joined, SomeCancel, LastSkip;
    if !st.cancelled {
      AskForKeeps(env, st.(questions := st.questions + 1), input, st.questions, default);
    }
  }

  /** A skip request is granted exactly if the last skip taken since the one before it names the
      current file. It uses up that skip. */
  lemma SkipRequestedKeeps(env: Parsers, st: State, peeks: seq<Peek>)
    requires Kept(env, st)
    ensures var (skip, after) := SkipRequested(env, st, peeks);
      && Kept(env, after) && Follows(st, after) && after.currentFile == st.currentFile
      && after.checked == |after.taken| && st.checked <= |after.taken|
      && (skip <==> st.currentFile.Some? && LastSkip(env, after.taken[st.checked..]) == st.currentFile)
  {
    hide Drain, PipeLines, Joined, SomeCancel, LastSkip;
    DrainKeeps(env, st, peeks);
    NoSkip(env);
    var drained := Drain(env, st, peeks);
    assert drained.taken[|drained.taken|..] == [];
  }

  lemma NoSkip(env: Parsers)
    ensures LastSkip(env, []) == None
  {}

  /** `checkpoint` reports a cancel exactly if one was seen by its first look, and then uses up no
      skip; and it reports a skip exactly if none was, and the last skip taken since the request
      before, its second look included, names the current file. */
  lemma CheckpointOutranks(env: Parsers, st: State, first: seq<Peek>, second: seq<Peek>)
    requires Kept(env, st)
    ensures var drained, (stop, after) := Drain(env, st, first), Checkpoint(env, st, first, second);
      && Kept(env, after) && Follows(st, after) && after.currentFile == st.currentFile
      && (stop.Cancelled? <==> SomeCancel(env, drained.taken) || (drained.hungUp && env.hangupCancels))
      && (stop.Cancelled? ==> after == drained && after.skipFile == LastSkip(env, after.taken[st.checked..]))
      && st.checked <= |after.taken|
      && (stop.Skipped? <==>
            !drained.cancelled && st.currentFile.Some? && LastSkip(env, after.taken[st.checked..]) == st.currentFile)
  {
    hide Drain, PipeLines, Joined, SomeCancel, LastSkip;
    DrainKeeps(env, st, first);
    var drained := Drain(env, st, first);
    if !drained.cancelled {
      SkipRequestedKeeps(env, drained, second);
      FollowsOn(st, drained, SkipRequested(env, drained, second).1);
    }
  }

  /** So a cancel that comes between the two looks loses to a pending skip, for this checkpoint. */
  lemma LateCancelLosesOnce(env: Parsers, st: State, f: file)
    requires st.piped && !st.cancelled && st.buf == [] && st.skipFile == Some(f) && st.currentFile == Some(f)
    requires env.hangupCancels
    ensures var (stop, after) := Checkpoint(env, st, [], [HungUp]);
      stop.Skipped? && after.cancelled && Checkpoint(env, after, [], []).0.Cancelled?
  {}

  // ----- Runs

  datatype Event =
    | Asks(input: seq<seq<byte>>, default: bool)
    | LooksForCancel(peeks: seq<Peek>)
    | LooksForSkip(peeks: seq<Peek>)
    | Checks(first: seq<Peek>, second: seq<Peek>)
    | Starts(file: Option<file>)

  function Step(env: Parsers, st: State, e: Event): State {
    match e
    case Asks(input, default) => Ask(env, st, input, default).1
    case LooksForCancel(peeks) => Drain(env, st, peeks)
    case LooksForSkip(peeks) => SkipRequested(env, st, peeks).1
    case Checks(first, second) => Checkpoint(env, st, first, second).1
    case Starts(f) => st.(currentFile := f)
  }

  ghost function After(env: Parsers, piped: bool, run: seq<Event>): State {
    if run == [] then Fresh(piped) else Step(env, After(env, piped, run[..|run| - 1]), run[|run| - 1])
  }

  /** The file of the last job start. */
  ghost function StartedFile(run: seq<Event>): Option<file> {
    if run == [] then None
    else if run[|run| - 1].Starts? then run[|run| - 1].file
    else StartedFile(run[..|run| - 1])
  }

  lemma StepKeeps(env: Parsers, st: State, e: Event)
    requires Kept(env, st)
    ensures Kept(env, Step(env, st, e)) && Follows(st, Step(env, st, e))
    ensures Step(env, st, e).currentFile == if e.Starts? then e.file else st.currentFile
  {
    hide Ask, Drain, SkipRequested, Checkpoint, PipeLines, Joined, SomeCancel, LastSkip;
    match e
    case Asks(input, default) => AskKeeps(env, st, input, default);
    case LooksForCancel(peeks) => DrainKeeps(env, st, peeks);
    case LooksForSkip(peeks) => SkipRequestedKeeps(env, st, peeks);
    case Checks(first, second) => CheckpointOutranks(env, st, first, second);
    case Starts(_) =>
  }

  lemma FreshKeeps(env: Parsers, piped: bool)
    ensures Kept(env, Fresh(piped))
  {
    assert Joined([]) + [] == [];
  }

  lemma {:induction false} RunKeeps(env: Parsers, piped: bool, run: seq<Event>)
    ensures Kept(env, After(env, piped, run)) && After(env, piped, run).currentFile == StartedFile(run)
  {
    hide Step, Kept;
    if run == [] {
      FreshKeeps(env, piped);
    } else {
      RunKeeps(env, piped, run[..|run| - 1]);
      StepKeeps(env, After(env, piped, run[..|run| - 1]), run[|run| - 1]);
    }
  }

  // ----- The main results

  lemma JoinedLine(line: seq<byte>, rest: seq<byte>)
    requires NEWLINE !in line
    ensures Lines(line + [NEWLINE] + rest) == [line] + Lines(rest)
  {
    var stream := line + [NEWLINE] + rest;
    EndOfLine(line, rest);
    assert stream[..|line|] == line && stream[|line| + 1..] == rest;
  }

  lemma {:induction false} EndOfLine(line: seq<byte>, rest: seq<byte>)
    requires NEWLINE !in line
    ensures LineEnd(line + [NEWLINE] + rest) == |line|
  {
    if line != [] {
      EndOfLine(line[1..], rest);
      assert (line + [NEWLINE] + rest)[1..] == line[1..] + [NEWLINE] + rest;
    }
  }

  lemma {:induction false} LinesOfJoined(lines: seq<seq<byte>>, rest: seq<byte>)
    requires AllClean(lines)
    ensures Lines(Joined(lines) + rest) == lines + Lines(rest)
    decreases |lines|
  {
    hide Lines;
    if lines == [] {
      assert Joined(lines) + rest == rest;
      assert lines + Lines(rest) == Lines(rest);
    } else {
      var front, last := lines[..|lines| - 1], lines[|lines| - 1];
      LinesOfJoined(front, last + [NEWLINE] + rest);
      JoinedLine(last, rest);
      assert Joined(lines) + rest == Joined(front) + (last + [NEWLINE] + rest);
      assert front + ([last] + Lines(rest)) == lines + Lines(rest);
    }
  }

  /** Over any run, however the input is cut up and whoever reads it, the lines taken from the pipe
      are the first lines of the bytes read, in order, none lost and none twice; those not taken yet
      are the lines of the buffer. */
  lemma LinesInOrder(env: Parsers, piped: bool, run: seq<Event>)
    ensures var st := After(env, piped, run); PipeLines(st.taken) + Lines(st.buf) == Lines(st.received)
  {
    hide After, PipeLines, Joined, SomeCancel, LastSkip, Lines;
    RunKeeps(env, piped, run);
    var st := After(env, piped, run);
    LinesOfJoined(PipeLines(st.taken), st.buf);
  }

  /** Over any run, the reporter is cancelled exactly if a cancel was among the lines taken or a
      hang-up counts as one, and once it is, it stays so and takes no line any more. */
  lemma CancelStays(env: Parsers, piped: bool, run: seq<Event>, e: Event)
    ensures var st := After(env, piped, run);
      && (st.cancelled <==> SomeCancel(env, st.taken) || (st.hungUp && env.hangupCancels))
      && (st.cancelled ==> Step(env, st, e).cancelled && Step(env, st, e).taken == st.taken)
  {
    hide After, PipeLines, Joined, SomeCancel, LastSkip;
    RunKeeps(env, piped, run);
  }

  /** Over any run, a skip is granted exactly if the last skip among the lines taken since the
      request before names the file of the last job start; and a request looks only at lines that
      no request before it looked at. */
  lemma SkipIsForCurrentFileOnce(env: Parsers, piped: bool, run: seq<Event>, peeks: seq<Peek>)
    ensures var st := After(env, piped, run);
      var (skip, after) := SkipRequested(env, st, peeks);
      && st.checked <= after.checked == |after.taken| && st.taken <= after.taken
      && (skip <==> StartedFile(run).Some? && LastSkip(env, after.taken[st.checked..]) == StartedFile(run))
  {
    hide After, SkipRequested, PipeLines, Joined, SomeCancel, LastSkip;
    RunKeeps(env, piped, run);
    SkipRequestedKeeps(env, After(env, piped, run), peeks);
  }
}
