/** Stream reassembly of capture/sniffer.py: `Kcp` reorders, deduplicates and joins segments, and
    skips a gap that has stayed open too long. */
module Kcp {
  import opened Bytes
  import Lists

  // A gap still open after this many seconds is skipped.
  const GAP_SECONDS := 3.0
  const HEADER_SIZE := 32
  // Only these segments carry data.
  const DATA_COMMAND := 81

  type message = seq<byte>

  datatype Fragment = Fragment(frg: nat, part: seq<byte>)

  datatype Segment = Segment(conv: nat, cmd: nat, sn: nat, fragment: Fragment)

  datatype State = State(next: nat, pending: map<nat, Fragment>, parts: seq<seq<byte>>,
                         gapSince: Option<real>, skipped: nat)

  const START := State(0, map[], [], None, 0)

  // ----- One datagram

  function Int32At(data: seq<byte>, pos: nat): nat
    requires pos + 4 <= |data|
  {
    FromLittleEndian(data[pos..pos + 4])
  }

  /** The end of the segment at `pos`, if the datagram holds all of it. */
  function SegmentEnd(data: seq<byte>, pos: nat): (end: Option<nat>)
    ensures end.Some? ==> pos + HEADER_SIZE <= end.value <= |data|
  {
    if pos + HEADER_SIZE > |data| then None
    else
      var end := pos + HEADER_SIZE + Int32At(data, pos + 24);
      if end > |data| then None else Some(end)
  }

  function SegmentAt(data: seq<byte>, pos: nat): Segment
    requires SegmentEnd(data, pos).Some?
  {
    Segment(Int32At(data, pos), data[pos + 8] as int, Int32At(data, pos + 16),
            Fragment(data[pos + 9] as int, data[pos + HEADER_SIZE..SegmentEnd(data, pos).value]))
  }

  /** Where a segment's fields lie: numbers lowest byte first, then the data. */
  lemma SegmentLayout(data: seq<byte>, pos: nat)
    requires SegmentEnd(data, pos).Some?
    ensures pos + 32 <= |data|
    ensures var s, h := SegmentAt(data, pos), data[pos..pos + 32];
      && s.conv == h[0] as int + 256 * h[1] as int + 0x1_0000 * h[2] as int + 0x100_0000 * h[3] as int
      && s.cmd == h[8] as int && s.fragment.frg == h[9] as int
      && s.sn == h[16] as int + 256 * h[17] as int + 0x1_0000 * h[18] as int + 0x100_0000 * h[19] as int
    ensures var s, h := SegmentAt(data, pos), data[pos..pos + 32];
      var size := h[24] as int + 256 * h[25] as int + 0x1_0000 * h[26] as int + 0x100_0000 * h[27] as int;
      pos + 32 + size <= |data| && s.fragment.part == data[pos + 32..pos + 32 + size]
  {
    hide Int32At, SegmentAt;
    Int32Layout(data, pos, 0);
    Int32Layout(data, pos, 16);
    Int32Layout(data, pos, 24);
    SegmentIs(data, pos);
  }

  lemma SegmentIs(data: seq<byte>, pos: nat)
    requires SegmentEnd(data, pos).Some?
    ensures var s, h := SegmentAt(data, pos), data[pos..pos + 32];
      && s.conv == Int32At(data, pos) && s.cmd == h[8] as int && s.fragment.frg == h[9] as int
      && s.sn == Int32At(data, pos + 16) && pos + 32 + Int32At(data, pos + 24) <= |data|
      && s.fragment.part == data[pos + 32..pos + 32 + Int32At(data, pos + 24)]
  {
    hide Int32At;
  }

  lemma Int32Layout(data: seq<byte>, pos: nat, at: nat)
    requires pos + 32 <= |data| && at <= 28
    ensures var h := data[pos..pos + 32];
      Int32At(data, pos + at)
      == h[at] as int + 256 * h[at + 1] as int + 0x1_0000 * h[at + 2] as int + 0x100_0000 * h[at + 3] as int
  {
    hide FromLittleEndian;
    FourBytesLittle(data[pos + at..pos + at + 4]);
  }

  /** The whole segments of a datagram from `pos` on. One that was cut short ends the list. */
  function Segments(data: seq<byte>, pos: nat): seq<Segment>
    decreases |data| - pos
  {
    if SegmentEnd(data, pos).None? then []
    else [SegmentAt(data, pos)] + Segments(data, SegmentEnd(data, pos).value)
  }

  predicate CarriesData(conv: nat, s: Segment) {
    s.conv == conv && s.cmd == DATA_COMMAND
  }

  /** Takes a segment into the pending ones, unless it is another connection's, carries no data or
      was passed already. */
  function Take(st: State, conv: nat, s: Segment): State {
    if CarriesData(conv, s) && s.sn >= st.next then st.(pending := st.pending[s.sn := s.fragment]) else st
  }

  function TakeAll(st: State, conv: nat, segments: seq<Segment>): State
    decreases |segments|
  {
    if segments == [] then st else TakeAll(Take(st, conv, segments[0]), conv, segments[1..])
  }

  function Join(parts: seq<seq<byte>>): message {
    if parts == [] then [] else Join(parts[..|parts| - 1]) + parts[|parts| - 1]
  }

  /** `pending.pop(sn)`. */
  function Without(pending: map<nat, Fragment>, sn: nat): (rest: map<nat, Fragment>)
    ensures rest.Keys == pending.Keys - {sn}
    ensures forall k :: k in rest ==> rest[k] == pending[k]
  {
    pending - {sn}
  }

  /** Moves the segment that is next in order to the open parts. */
  function MoveNext(st: State): State
    requires st.next in st.pending
  {
    var f := st.pending[st.next];
    st.(next := st.next + 1, pending := Without(st.pending, st.next),
        parts := if f.frg == 0 then [] else st.parts + [f.part])
  }

  /** The message that segment closes, if it does. */
  function Closed(st: State): seq<message>
    requires st.next in st.pending
  {
    var f := st.pending[st.next];
    if f.frg == 0 then [Join(st.parts + [f.part])] else []
  }

  /** Moves the pending segments that are next in order into messages. */
  function Drain(st: State): (State, seq<message>)
    decreases st.pending.Keys
  {
    if st.next !in st.pending then (st, [])
    else
      assert st.next in st.pending.Keys && MoveNext(st).pending.Keys == st.pending.Keys - {st.next};
      var (rest, messages) := Drain(MoveNext(st));
      (rest, Closed(st) + messages)
  }

  lemma DrainStops(st: State)
    requires st.next !in st.pending
    ensures Drain(st) == (st, [])
  {}

  lemma DrainUnfolds(st: State)
    requires st.next in st.pending
    ensures Drain(st).0 == Drain(MoveNext(st)).0 && Drain(st).1 == Closed(st) + Drain(MoveNext(st)).1
  {}

  ghost function Ends(pending: map<nat, Fragment>): set<nat> {
    set sn | sn in pending && pending[sn].frg == 0
  }

  ghost function Least(s: set<nat>): (least: nat)
    requires s != {}
    ensures least in s && forall x :: x in s ==> least <= x
  {
    var x :| x in s;
    if s == {x} then x
    else
      assert s - {x} != {};
      var rest := Least(s - {x});
      assert forall y :: y in s ==> y == x || y in s - {x};
      if x < rest then x else rest
  }

  /** Drops the message the gap fell in, up to the first pending segment that ends a message. */
  ghost function SkipGap(st: State): State {
    if Ends(st.pending) == {} then st
    else
      var end := Least(Ends(st.pending));
      State(end + 1, map sn | sn in st.pending && sn > end :: st.pending[sn], [], None, st.skipped + 1)
  }

  /** What the timer does after the drain of a feed at `now`. */
  ghost function Feed(st: State, conv: nat, data: seq<byte>, now: real): (State, seq<message>) {
    var (drained, messages) := Drain(TakeAll(st, conv, Segments(data, 0)));
    if drained.pending == map[] then (drained.(gapSince := None), messages)
    else if drained.gapSince.None? || messages != [] then (drained.(gapSince := Some(now)), messages)
    else if now - drained.gapSince.value >= GAP_SECONDS then
      var (after, more) := Drain(SkipGap(drained));
      (after, messages + more)
    else (drained, messages)
  }

  // ----- The class

  class Kcp {
    const conv: nat
    var next: nat
    var pending: map<nat, Fragment>
    var parts: seq<seq<byte>>
    var gapSince: Option<real>
    var skipped: nat

    ghost function Now(): State
      reads this
    {
      State(next, pending, parts, gapSince, skipped)
    }

    constructor (conv: nat)
      ensures Now() == START && this.conv == conv
    {
      this.conv := conv;
      next, pending, parts, gapSince, skipped := 0, map[], [], None, 0;
    }

    method FeedDatagram(data: seq<byte>, now: real) returns (messages: seq<message>)
      modifies this
      ensures (Now(), messages) == Feed(old(Now()), conv, data, now)
    {
      var pos := 0;
      while SegmentEnd(data, pos).Some?
        invariant TakeAll(Now(), conv, Segments(data, pos)) == TakeAll(old(Now()), conv, Segments(data, 0))
        decreases |data| - pos
      {
        var s := SegmentAt(data, pos);
        assert Segments(data, pos)[1..] == Segments(data, SegmentEnd(data, pos).value);
        if CarriesData(conv, s) && s.sn >= next {
          pending := pending[s.sn := s.fragment];
        }
        pos := SegmentEnd(data, pos).value;
      }
      messages := DrainPending();
      if pending == map[] {
        gapSince := None;
      } else if gapSince.None? || messages != [] {
        gapSince := Some(now);
      } else if now - gapSince.value >= GAP_SECONDS {
        SkipTheGap();
        var more := DrainPending();
        messages := messages + more;
      }
    }

    method DrainPending() returns (messages: seq<message>)
      modifies this
      ensures (Now(), messages) == Drain(old(Now()))
    {
      hide Drain, MoveNext, Closed;
      messages := [];
      while next in pending
        invariant Drain(Now()).0 == Drain(old(Now())).0
        invariant messages + Drain(Now()).1 == Drain(old(Now())).1
        decreases pending.Keys
      {
        ghost var st, before := Now(), messages;
        DrainUnfolds(st);
        var closed := MoveOne();
        messages := messages + closed;
        assert before + (closed + Drain(Now()).1) == messages + Drain(Now()).1;
      }
      DrainStops(Now());
      assert messages + [] == messages;
    }

    method MoveOne() returns (closed: seq<message>)
      requires next in pending
      modifies this
      ensures Now() == MoveNext(old(Now())) && closed == Closed(old(Now()))
      ensures pending.Keys < old(pending.Keys)
    {
      hide Join, Without;
      var f := pending[next];
      assert next in pending.Keys;
      pending := Without(pending, next);
      next := next + 1;
      parts := parts + [f.part];
      closed := [];
      if f.frg == 0 {
        closed := [Join(parts)];
        parts := [];
      }
    }

    method SkipTheGap()
      modifies this
      ensures Now() == SkipGap(old(Now()))
    {
      var ends := set sn | sn in pending && pending[sn].frg == 0;
      if ends == {} {
        return;
      }
      var end := Lists.Least(ends);
      assert end == Least(Ends(pending));
      pending := map sn | sn in pending && sn > end :: pending[sn];
      next, parts, gapSince, skipped := end + 1, [], None, skipped + 1;
    }
  }

  // ----- The sender

  /** The fragments of the first `n` segments that no message end has closed yet. */
  function Tail(sender: seq<Fragment>, n: nat): seq<seq<byte>>
    requires n <= |sender|
  {
    if n == 0 || sender[n - 1].frg == 0 then [] else Tail(sender, n - 1) + [sender[n - 1].part]
  }

  /** The messages wholly inside the sender's first `n` segments. */
  function Complete(sender: seq<Fragment>, n: nat): seq<message>
    requires n <= |sender|
  {
    if n == 0 then []
    else if sender[n - 1].frg == 0 then
      Complete(sender, n - 1) + [Join(Tail(sender, n - 1) + [sender[n - 1].part])]
    else Complete(sender, n - 1)
  }

  /** A segment is not ours, or is the sender's segment with its number. */
  ghost predicate Consistent(sender: seq<Fragment>, conv: nat, s: Segment) {
    s.conv == conv && s.cmd == 81 ==> s.sn < |sender| && sender[s.sn] == s.fragment
  }

  ghost predicate AllConsistent(sender: seq<Fragment>, conv: nat, segments: seq<Segment>) {
    forall k :: 0 <= k < |segments| ==> Consistent(sender, conv, segments[k])
  }

  /** The numbers of the data segments in the list. */
  ghost function Numbers(conv: nat, segments: seq<Segment>): set<nat> {
    set k | 0 <= k < |segments| && segments[k].conv == conv && segments[k].cmd == 81 :: segments[k].sn
  }

  // ----- What every step keeps

  /** Everything held is the sender's: the open parts, and what waits beyond `next`. */
  ghost predicate Holds(sender: seq<Fragment>, st: State) {
    && st.next <= |sender|
    && st.parts == Tail(sender, st.next)
    && forall sn :: sn in st.pending ==> st.next <= sn < |sender| && st.pending[sn] == sender[sn]
  }

  lemma {:induction false} TakeAllHolds(sender: seq<Fragment>, st: State, conv: nat, segments: seq<Segment>)
    requires Holds(sender, st) && AllConsistent(sender, conv, segments)
    ensures var taken := TakeAll(st, conv, segments);
      && Holds(sender, taken)
      && taken.next == st.next && taken.gapSince == st.gapSince && taken.skipped == st.skipped
      && taken.pending.Keys == st.pending.Keys + set sn | sn in Numbers(conv, segments) && sn >= st.next
    decreases |segments|
  {
    if segments != [] {
      var rest := segments[1..];
      assert AllConsistent(sender, conv, rest) by {
        assert forall k :: 0 <= k < |rest| ==> rest[k] == segments[k + 1];
      }
      TakeAllHolds(sender, Take(st, conv, segments[0]), conv, rest);
      NumbersSplit(conv, segments);
    }
  }

  lemma NumbersSplit(conv: nat, segments: seq<Segment>)
    requires segments != []
    ensures Numbers(conv, segments)
         == Numbers(conv, segments[1..]) + if CarriesData(conv, segments[0]) then {segments[0].sn} else {}
  {
    var rest := segments[1..];
    forall sn | sn in Numbers(conv, segments)
      ensures sn in Numbers(conv, rest) || (CarriesData(conv, segments[0]) && sn == segments[0].sn)
    {
      var k :| 0 <= k < |segments| && CarriesData(conv, segments[k]) && segments[k].sn == sn;
      assert k > 0 ==> rest[k - 1] == segments[k];
    }
    forall sn | sn in Numbers(conv, rest) ensures sn in Numbers(conv, segments) {
      var k :| 0 <= k < |rest| && CarriesData(conv, rest[k]) && rest[k].sn == sn;
      assert segments[k + 1] == rest[k];
    }
  }

  ghost function Between(n: nat, m: nat): (numbers: set<nat>)
    ensures forall sn: nat :: sn in numbers <==> n <= sn < m
  {
    if m <= n then {} else Between(n, m - 1) + {m - 1}
  }

  /** A drain moves exactly the run of pending segments from `next` on, and completes exactly the
      messages that end in it. */
  lemma {:induction false} DrainHolds(sender: seq<Fragment>, st: State)
    requires Holds(sender, st)
    ensures var (drained, messages) := Drain(st);
      && Holds(sender, drained) && st.next <= drained.next && drained.next !in drained.pending
      && Complete(sender, drained.next) == Complete(sender, st.next) + messages
      && Between(st.next, drained.next) <= st.pending.Keys
      && drained.pending.Keys == (set sn | sn in st.pending && sn >= drained.next)
      && drained.gapSince == st.gapSince && drained.skipped == st.skipped
    decreases st.pending.Keys
  {
    hide MoveNext, Closed, Holds, Complete;
    HeldAbove(sender, st);
    if st.next in st.pending {
      var moved := MoveNext(st);
      MoveHolds(sender, st);
      DrainHolds(sender, moved);
      var (rest, messages) := Drain(moved);
      assert Complete(sender, st.next) + Closed(st) + messages == Complete(sender, st.next) + (Closed(st) + messages);
    }
  }

  lemma HeldAbove(sender: seq<Fragment>, st: State)
    requires Holds(sender, st)
    ensures st.next <= |sender| && forall sn :: sn in st.pending ==> sn >= st.next
  {}

  lemma MoveHolds(sender: seq<Fragment>, st: State)
    requires Holds(sender, st) && st.next in st.pending
    ensures var moved := MoveNext(st);
      && Holds(sender, moved) && moved.next == st.next + 1
      && moved.pending.Keys == st.pending.Keys - {st.next}
      && moved.gapSince == st.gapSince && moved.skipped == st.skipped
    ensures st.next < |sender| && Complete(sender, st.next + 1) == Complete(sender, st.next) + Closed(st)
  {
    hide Join, Without, Tail, Complete;
    MoveCompletes(sender, st);
    MovedParts(sender, st);
  }

  lemma MovedParts(sender: seq<Fragment>, st: State)
    requires Holds(sender, st) && st.next in st.pending
    ensures st.next < |sender| && MoveNext(st).parts == Tail(sender, st.next + 1)
  {
    hide Without;
    assert st.pending[st.next] == sender[st.next];
  }

  lemma MoveCompletes(sender: seq<Fragment>, st: State)
    requires Holds(sender, st) && st.next in st.pending
    ensures st.next < |sender| && Complete(sender, st.next + 1) == Complete(sender, st.next) + Closed(st)
  {
    hide Join;
  }

  /** A skip lands past the least pending message end. */
  lemma SkipHolds(sender: seq<Fragment>, st: State)
    requires Holds(sender, st) && st.next !in st.pending
    ensures var skipped := SkipGap(st);
      && Holds(sender, skipped)
      && (skipped == st || (skipped.skipped == st.skipped + 1 && skipped.gapSince.None? && st.next < skipped.next))
      && skipped.pending.Keys == (set sn | sn in st.pending && sn >= skipped.next)
      && (skipped != st ==> ClosesGap(sender, st.pending.Keys, st.next, skipped.next))
  {
    forall sn: nat | sn in st.pending && sender[sn].frg == 0
      ensures sn in Ends(st.pending) && sn >= SkipGap(st).next - 1
    {}
  }

  lemma {:induction false} CompleteGrows(sender: seq<Fragment>, n: nat, m: nat)
    requires n <= m <= |sender|
    ensures Complete(sender, n) <= Complete(sender, m)
    decreases m
  {
    if n < m {
      CompleteGrows(sender, n, m - 1);
    }
  }

  /** The numbers pending once the segments are taken in. */
  ghost function Held(st: State, conv: nat, segments: seq<Segment>): set<nat> {
    st.pending.Keys + set sn | sn in Numbers(conv, segments) && sn >= st.next
  }

  /** Number `gap` has not come, and `end - 1` is the first number after it that has come and ends a
      message. */
  ghost predicate ClosesGap(sender: seq<Fragment>, received: set<nat>, gap: nat, end: nat) {
    && gap < end <= |sender|
    && gap !in received
    && end - 1 in received && sender[end - 1].frg == 0
    && forall sn: nat :: gap <= sn < end - 1 && sn in received ==> sender[sn].frg != 0
  }

  /** One feed. It hands out the sender's messages that end before `gap` and those that end from
      `end` on, and takes all that was held there; a skip is what parts `gap` from `end`. */
  lemma FeedHolds(sender: seq<Fragment>, st: State, conv: nat, data: seq<byte>, now: real)
    returns (gap: nat, end: nat, before: seq<message>, after: seq<message>)
    requires Holds(sender, st) && AllConsistent(sender, conv, Segments(data, 0))
    ensures st.next <= gap <= end <= Feed(st, conv, data, now).0.next <= |sender|
    ensures var (fed, messages) := Feed(st, conv, data, now);
      && Holds(sender, fed) && messages == before + after
      && Complete(sender, gap) == Complete(sender, st.next) + before
      && Complete(sender, fed.next) == Complete(sender, end) + after
    ensures var fed, held := Feed(st, conv, data, now).0, Held(st, conv, Segments(data, 0));
      && Between(st.next, gap) + Between(end, fed.next) <= held && fed.next !in held
      && fed.pending.Keys == (set sn | sn in held && sn >= fed.next)
      && fed.skipped == st.skipped + (if gap < end then 1 else 0)
      && (gap < end ==> ClosesGap(sender, held, gap, end))
  {
    hide TakeAll, Drain, SkipGap, Tail, Complete, Segments, Numbers, AllConsistent, ClosesGap, Holds;
    var held := Held(st, conv, Segments(data, 0));
    var taken := TakeAll(st, conv, Segments(data, 0));
    TakeAllHolds(sender, st, conv, Segments(data, 0));
    DrainHolds(sender, taken);
    var (drained, messages) := Drain(taken);
    gap, end, before, after := drained.next, drained.next, messages, [];
    assert messages + [] == messages;
    HeldAbove(sender, drained);
    TimerAside(sender, drained, None);
    TimerAside(sender, drained, Some(now));
    if drained.pending != map[] && drained.gapSince.Some? && messages == []
       && now - drained.gapSince.value >= GAP_SECONDS
    {
      SkipHolds(sender, drained);
      var skipped := SkipGap(drained);
      DrainHolds(sender, skipped);
      end, after := skipped.next, Drain(skipped).1;
      HeldAbove(sender, Drain(skipped).0);
      if gap < end {
        WiderGap(sender, drained.pending.Keys, held, gap, end);
      }
    }
  }

  lemma TimerAside(sender: seq<Fragment>, st: State, since: Option<real>)
    requires Holds(sender, st)
    ensures Holds(sender, st.(gapSince := since))
  {}

  lemma WiderGap(sender: seq<Fragment>, pending: set<nat>, held: set<nat>, gap: nat, end: nat)
    requires ClosesGap(sender, pending, gap, end) && forall sn: nat :: sn >= gap ==> (sn in pending <==> sn in held)
    ensures ClosesGap(sender, held, gap, end)
  {}

  /** A skip drops one message, the one the gap fell in, exactly if no message ends from the gap on
      before the end that closes it. */
  lemma SkipDropsOneIff(sender: seq<Fragment>, received: set<nat>, gap: nat, end: nat)
    requires ClosesGap(sender, received, gap, end)
    ensures |Complete(sender, end)| == |Complete(sender, gap)| + 1 <==>
      forall sn: nat :: gap <= sn < end - 1 ==> sender[sn].frg != 0
  {
    hide Join, Tail;
    if forall sn: nat :: gap <= sn < end - 1 ==> sender[sn].frg != 0 {
      NoEndNoMessage(sender, gap, end - 1);
    } else {
      var sn: nat :| gap <= sn < end - 1 && sender[sn].frg == 0;
      CompleteGrows(sender, gap, sn);
      CompleteGrows(sender, sn + 1, end - 1);
    }
  }

  lemma {:induction false} NoEndNoMessage(sender: seq<Fragment>, n: nat, m: nat)
    requires n <= m <= |sender| && forall sn: nat :: n <= sn < m ==> sender[sn].frg != 0
    ensures Complete(sender, m) == Complete(sender, n)
    decreases m
  {
    if n < m {
      NoEndNoMessage(sender, n, m - 1);
    }
  }

  /** A missing message takes the next one of several segments with it, though all of that came. */
  lemma ReceivedMessageIsDropped(a: seq<byte>, b: seq<byte>, c: seq<byte>, since: Option<real>, skipped: nat)
    ensures var sender := [Fragment(0, a), Fragment(1, b), Fragment(0, c)];
      var st := State(0, map[1 := sender[1], 2 := sender[2]], [], since, skipped);
      && Holds(sender, st) && Complete(sender, 3) == [a, b + c]
      && SkipGap(st) == State(3, map[], [], None, skipped + 1)
  {
    hide Complete, SkipGap;
    TwoMessages(a, b, c);
    EndIsSkipped(Fragment(1, b), Fragment(0, c), since, skipped);
  }

  lemma TwoMessages(a: seq<byte>, b: seq<byte>, c: seq<byte>)
    ensures Complete([Fragment(0, a), Fragment(1, b), Fragment(0, c)], 3) == [a, b + c]
  {
    var sender := [Fragment(0, a), Fragment(1, b), Fragment(0, c)];
    assert Tail(sender, 0) == [] && Tail(sender, 1) == [] && Tail(sender, 2) == [b];
    JoinsTo(a, b, c);
    hide Tail, Join;
    assert [] + [a] == [a] && [b] + [c] == [b, c];
    assert Complete(sender, 1) == [a];
    assert Complete(sender, 2) == [a];
  }

  lemma JoinsTo(a: seq<byte>, b: seq<byte>, c: seq<byte>)
    ensures Join([a]) == a && Join([b, c]) == b + c
  {
    assert [a][..0] == [] && [b][..0] == [] && [b, c][..1] == [b];
    assert Join([b]) == b;
  }

  lemma EndIsSkipped(part: Fragment, end: Fragment, since: Option<real>, skipped: nat)
    requires part.frg != 0 && end.frg == 0
    ensures SkipGap(State(0, map[1 := part, 2 := end], [], since, skipped)) == State(3, map[], [], None, skipped + 1)
  {
    assert Ends(map[1 := part, 2 := end]) == {2};
  }

  // ----- Whole runs

  datatype Datagram = Datagram(data: seq<byte>, now: real)

  /** The state after a run of feeds from the start of a connection. */
  ghost function After(conv: nat, run: seq<Datagram>): State
    decreases |run|, 1
  {
    if run == [] then START else FeedLast(conv, run).0
  }

  ghost function FeedLast(conv: nat, run: seq<Datagram>): (State, seq<message>)
    requires run != []
    decreases |run|, 0
  {
    var last := run[|run| - 1];
    Feed(After(conv, run[..|run| - 1]), conv, last.data, last.now)
  }

  /** All messages a run hands out, in order. */
  ghost function Emitted(conv: nat, run: seq<Datagram>): seq<message> {
    if run == [] then [] else Emitted(conv, run[..|run| - 1]) + FeedLast(conv, run).1
  }

  /** The numbers of all data segments that came whole in a run. */
  ghost function Received(conv: nat, run: seq<Datagram>): set<nat> {
    if run == [] then {}
    else Received(conv, run[..|run| - 1]) + Numbers(conv, Segments(run[|run| - 1].data, 0))
  }

  ghost predicate FromSender(sender: seq<Fragment>, conv: nat, run: seq<Datagram>) {
    forall k :: 0 <= k < |run| ==> AllConsistent(sender, conv, Segments(run[k].data, 0))
  }

  /** Some number from `from` to `sn` has not come. */
  ghost predicate Missing(received: set<nat>, from: nat, sn: nat) {
    exists x: nat :: from <= x <= sn && x !in received
  }

  /** What a skip drops that finds everything below `from` passed: from the first number that has not
      come to the first one after it that has come and ends a message. */
  ghost function Dropped(sender: seq<Fragment>, received: set<nat>, from: nat): set<nat> {
    set sn: nat | from <= sn < |sender| && Missing(received, from, sn) && NoEndBefore(sender, received, from, sn)
  }

  ghost predicate NoEndBefore(sender: seq<Fragment>, received: set<nat>, from: nat, sn: nat)
    requires sn <= |sender|
  {
    forall y: nat :: from <= y < sn && y in received && sender[y].frg == 0 ==> !Missing(received, from, y)
  }

  /** All numbers that a run skips. */
  ghost function Skipped(sender: seq<Fragment>, conv: nat, run: seq<Datagram>): set<nat> {
    if run == [] then {}
    else
      var front := run[..|run| - 1];
      Skipped(sender, conv, front) +
      if After(conv, run).skipped == After(conv, front).skipped then {}
      else Dropped(sender, Received(conv, run), After(conv, front).next)
  }

  /** The messages wholly inside the sender's first `n` segments, without those that end in `lost`. */
  ghost function CompleteBut(sender: seq<Fragment>, n: nat, lost: set<nat>): seq<message>
    requires n <= |sender|
  {
    if n == 0 then []
    else if sender[n - 1].frg == 0 && n - 1 !in lost then
      CompleteBut(sender, n - 1, lost) + [Join(Tail(sender, n - 1) + [sender[n - 1].part])]
    else CompleteBut(sender, n - 1, lost)
  }

  lemma {:induction false} KeptMessages(sender: seq<Fragment>, n: nat, m: nat, lost: set<nat>, more: seq<message>)
    requires n <= m <= |sender| && Between(n, m) !! lost
    requires Complete(sender, m) == Complete(sender, n) + more
    ensures CompleteBut(sender, m, lost) == CompleteBut(sender, n, lost) + more
    decreases m
  {
    hide Join, Tail, Between;
    if n == m {
      assert more == [];
    } else {
      CompleteGrows(sender, n, m - 1);
      var less := Complete(sender, m - 1)[|Complete(sender, n)|..];
      assert Between(n, m - 1) <= Between(n, m) && m - 1 in Between(n, m);
      KeptMessages(sender, n, m - 1, lost, less);
      assert more == less + Complete(sender, m)[|Complete(sender, m - 1)|..];
    }
  }

  lemma {:induction false} LostMessages(sender: seq<Fragment>, n: nat, m: nat, lost: set<nat>)
    requires n <= m <= |sender| && Between(n, m) <= lost
    ensures CompleteBut(sender, m, lost) == CompleteBut(sender, n, lost)
    decreases m
  {
    hide Join, Tail, Between;
    if n < m {
      LostMessages(sender, n, m - 1, lost);
    }
  }

  lemma {:induction false} SameMessages(sender: seq<Fragment>, n: nat, lost: set<nat>, other: set<nat>)
    requires n <= |sender| && forall sn: nat :: sn < n ==> (sn in lost <==> sn in other)
    ensures CompleteBut(sender, n, lost) == CompleteBut(sender, n, other)
  {
    hide Join, Tail;
    if n > 0 {
      SameMessages(sender, n - 1, lost, other);
    }
  }

  lemma {:induction false} NoneLost(sender: seq<Fragment>, n: nat)
    requires n <= |sender|
    ensures CompleteBut(sender, n, {}) == Complete(sender, n)
  {
    hide Join, Tail;
    if n > 0 {
      NoneLost(sender, n - 1);
    }
  }

  /** The numbers dropped are those from the first missing one to the end that closes its gap. */
  lemma DroppedIsGap(sender: seq<Fragment>, received: set<nat>, from: nat, gap: nat, end: nat)
    requires from <= gap && Between(from, gap) <= received
    requires ClosesGap(sender, received, gap, end)
    ensures Dropped(sender, received, from) == Between(gap, end)
  {
    forall sn: nat | from <= sn ensures Missing(received, from, sn) <==> gap <= sn {}
    forall sn: nat | from <= sn <= |sender| && gap <= sn
      ensures NoEndBefore(sender, received, from, sn) <==> sn < end
    {
      if end <= sn {
        assert Missing(received, from, end - 1);
      }
    }
  }

  lemma MessagesBut(sender: seq<Fragment>, n: nat, gap: nat, end: nat, m: nat, lost: set<nat>,
                    before: seq<message>, after: seq<message>)
    requires n <= gap <= end <= m <= |sender| && forall sn :: sn in lost ==> sn < n
    requires Complete(sender, gap) == Complete(sender, n) + before
    requires Complete(sender, m) == Complete(sender, end) + after
    ensures var now := lost + Between(gap, end);
      CompleteBut(sender, m, now) == CompleteBut(sender, n, lost) + before + after
  {
    hide Complete, CompleteBut;
    var now := lost + Between(gap, end);
    SameMessages(sender, n, lost, now);
    KeptMessages(sender, n, gap, now, before);
    LostMessages(sender, gap, end, now);
    KeptMessages(sender, end, m, now, after);
  }

  /** Below `next` every number has come or was skipped, and pending is what came beyond it. */
  ghost predicate Accounted(next: nat, pending: set<nat>, skipped: set<nat>, received: set<nat>) {
    && next !in received
    && (forall sn :: sn in skipped ==> sn < next)
    && Between(0, next) <= skipped + received
    && pending == set sn | sn in received && sn >= next
  }

  lemma StillAccounted(n: nat, pending: set<nat>, skipped: set<nat>, received: set<nat>, numbers: set<nat>,
                       held: set<nat>, gap: nat, end: nat, m: nat)
    requires Accounted(n, pending, skipped, received) && n <= gap <= end <= m
    requires held == pending + set sn | sn in numbers && sn >= n
    requires Between(n, gap) + Between(end, m) <= held && m !in held
    ensures Accounted(m, (set sn | sn in held && sn >= m), skipped + Between(gap, end), received + numbers)
    ensures forall sn: nat :: sn >= n ==> (sn in held <==> sn in received + numbers)
  {
    var after := set sn | sn in held && sn >= m;
    var lost, come := skipped + Between(gap, end), received + numbers;
    forall sn: nat | sn >= n ensures sn in held <==> sn in come {}
    assert after == set sn | sn in come && sn >= m;
    forall sn: nat | sn < m ensures sn in lost + come {
      AllCame(n, skipped, received, gap, end, m, held, sn);
    }
    forall sn | sn in lost ensures sn < m {
      if sn in skipped { assert sn < n; }
    }
  }

  lemma AllCame(n: nat, skipped: set<nat>, received: set<nat>, gap: nat, end: nat, m: nat, held: set<nat>, sn: nat)
    requires Between(0, n) <= skipped + received && Between(n, gap) <= held && Between(end, m) <= held && sn < m
    ensures sn in skipped + received || sn in Between(gap, end) || (sn in held && n <= sn)
  {
    hide Between;
    assert sn in Between(0, n) || sn in Between(n, gap) || sn in Between(gap, end) || sn in Between(end, m);
  }

  lemma StartHolds(sender: seq<Fragment>)
    ensures Holds(sender, START) && Complete(sender, 0) == [] && Accounted(0, {}, {}, {})
    ensures forall lost :: CompleteBut(sender, 0, lost) == []
  {}

  /** Over any run, skips included, what is handed out is every message of the sender wholly inside
      its first `next` segments but those that end in a number skipped, in order; what was not
      skipped below `next` has come; and pending is what came beyond it. */
  lemma {:induction false} EmittedIsAllButSkipped(sender: seq<Fragment>, conv: nat, run: seq<Datagram>)
    requires FromSender(sender, conv, run)
    ensures var st, skipped := After(conv, run), Skipped(sender, conv, run);
      && Holds(sender, st) && st.next <= |sender|
      && Emitted(conv, run) == CompleteBut(sender, st.next, skipped)
      && Accounted(st.next, st.pending.Keys, skipped, Received(conv, run))
      && (run != [] ==> After(conv, run[..|run| - 1]).next <= st.next)
  {
    hide Feed, Complete, CompleteBut, Dropped, Tail, Segments, AllConsistent, Numbers, ClosesGap, Accounted, Holds;
    if run == [] {
      StartHolds(sender);
      assert START.pending.Keys == {};
    } else {
      var front, last := run[..|run| - 1], run[|run| - 1];
      EmittedIsAllButSkipped(sender, conv, front);
      var st := After(conv, front);
      assert (After(conv, run), FeedLast(conv, run).1) == Feed(st, conv, last.data, last.now);
      var gap, end, before, after := FeedHolds(sender, st, conv, last.data, last.now);
      var lost := Skipped(sender, conv, front);
      SkippedOfFeed(sender, conv, run, gap, end);
      BelowNext(sender, st, lost, Received(conv, front));
      MessagesBut(sender, st.next, gap, end, After(conv, run).next, lost, before, after);
      var sent := CompleteBut(sender, st.next, lost);
      assert sent + (before + after) == sent + before + after;
    }
  }

  lemma BelowNext(sender: seq<Fragment>, st: State, skipped: set<nat>, received: set<nat>)
    requires Accounted(st.next, st.pending.Keys, skipped, received)
    ensures forall sn :: sn in skipped ==> sn < st.next
  {}

  /** The last feed of a run skips what lies between its `gap` and its `end`. */
  lemma SkippedOfFeed(sender: seq<Fragment>, conv: nat, run: seq<Datagram>, gap: nat, end: nat)
    requires run != []
    requires var st, fed := After(conv, run[..|run| - 1]), After(conv, run);
      var held := Held(st, conv, Segments(run[|run| - 1].data, 0));
      && st.next <= gap <= end <= fed.next
      && Between(st.next, gap) + Between(end, fed.next) <= held && fed.next !in held
      && fed.pending.Keys == (set sn | sn in held && sn >= fed.next)
      && fed.skipped == st.skipped + (if gap < end then 1 else 0)
      && (gap < end ==> ClosesGap(sender, held, gap, end))
      && Accounted(st.next, st.pending.Keys, Skipped(sender, conv, run[..|run| - 1]), Received(conv, run[..|run| - 1]))
    ensures Skipped(sender, conv, run) == Skipped(sender, conv, run[..|run| - 1]) + Between(gap, end)
    ensures var fed := After(conv, run);
      Accounted(fed.next, fed.pending.Keys, Skipped(sender, conv, run), Received(conv, run))
  {
    hide After, Segments, Numbers, Dropped, ClosesGap, Accounted, Between;
    var front, numbers := run[..|run| - 1], Numbers(conv, Segments(run[|run| - 1].data, 0));
    var st, fed := After(conv, front), After(conv, run);
    var held := Held(st, conv, Segments(run[|run| - 1].data, 0));
    StillAccounted(st.next, st.pending.Keys, Skipped(sender, conv, front), Received(conv, front), numbers,
                   held, gap, end, fed.next);
    if gap < end {
      WiderGap(sender, held, Received(conv, run), gap, end);
      HeldRun(st.next, gap, held, Received(conv, run));
      DroppedIsGap(sender, Received(conv, run), st.next, gap, end);
    }
  }

  lemma HeldRun(n: nat, gap: nat, held: set<nat>, received: set<nat>)
    requires Between(n, gap) <= held && forall sn: nat :: sn >= n ==> (sn in held <==> sn in received)
    ensures Between(n, gap) <= received
  {
    hide Between;
  }

  /** Over any run without a skip, segments in any order, repeated, cut short or mixed with others
      give exactly the sender's messages wholly inside the longest received prefix, in order, once
      each. */
  lemma EmittedIsReceivedPrefix(sender: seq<Fragment>, conv: nat, run: seq<Datagram>)
    requires FromSender(sender, conv, run) && After(conv, run).skipped == 0
    ensures var n := After(conv, run).next;
      && n <= |sender|
      && Between(0, n) <= Received(conv, run) && n !in Received(conv, run)
      && Emitted(conv, run) == Complete(sender, n)
      && After(conv, run).pending.Keys == (set sn | sn in Received(conv, run) && sn >= n)
      && Holds(sender, After(conv, run))
  {
    hide Emitted, Received, Complete, CompleteBut, FromSender, Skipped, Holds, Between;
    EmittedIsAllButSkipped(sender, conv, run);
    NoSkip(sender, conv, run);
    HeldAbove(sender, After(conv, run));
    NoneLost(sender, After(conv, run).next);
  }

  /** The count of skips counts the feeds that skip, so none were without it. */
  lemma {:induction false} NoSkip(sender: seq<Fragment>, conv: nat, run: seq<Datagram>)
    requires FromSender(sender, conv, run) && After(conv, run).skipped == 0
    ensures Skipped(sender, conv, run) == {}
  {
    hide Feed, Dropped, Segments, AllConsistent, Received, Emitted, CompleteBut, Complete;
    if run != [] {
      var front, last := run[..|run| - 1], run[|run| - 1];
      EmittedIsAllButSkipped(sender, conv, front);
      var gap, end, before, after := FeedHolds(sender, After(conv, front), conv, last.data, last.now);
      NoSkip(sender, conv, front);
    }
  }

  // ----- The gap timer

  /** Feed `k` of the run left something pending and skipped nothing, and no feed after it completed
      a message, closed the gap or skipped it. */
  ghost predicate QuietSince(conv: nat, run: seq<Datagram>, k: nat) {
    && k < |run|
    && (forall i :: k < i < |run| ==> QuietAt(conv, run, i))
    && (forall i :: k <= i < |run| ==> OpenAt(conv, run, i) && !SkipAt(conv, run, i))
  }

  /** Feed `k` is where a quiet stretch begins: it completed a message, or before it nothing was
      pending or a gap had just been skipped. */
  ghost predicate BeginsAt(conv: nat, run: seq<Datagram>, k: nat)
    requires k < |run|
  {
    k == 0 || !QuietAt(conv, run, k) || !OpenAt(conv, run, k - 1) || SkipAt(conv, run, k - 1)
  }

  /** Feed `i` of the run skipped a gap. */
  ghost predicate SkipAt(conv: nat, run: seq<Datagram>, i: nat)
    requires i < |run|
  {
    After(conv, run[..i + 1]).skipped != After(conv, run[..i]).skipped
  }

  /** Feed `i` of the run completed no message. */
  ghost predicate QuietAt(conv: nat, run: seq<Datagram>, i: nat)
    requires i < |run|
  {
    FeedLast(conv, run[..i + 1]).1 == []
  }

  /** Feed `i` of the run left something pending. */
  ghost predicate OpenAt(conv: nat, run: seq<Datagram>, i: nat)
    requires i < |run|
  {
    After(conv, run[..i + 1]).pending != map[]
  }

  lemma QuietGrows(conv: nat, run: seq<Datagram>, k: nat)
    requires run != [] && QuietSince(conv, run[..|run| - 1], k)
    requires FeedLast(conv, run).1 == [] && After(conv, run).pending != map[] && !SkipAt(conv, run, |run| - 1)
    ensures QuietSince(conv, run, k)
  {
    hide QuietAt, OpenAt, SkipAt;
    var front := run[..|run| - 1];
    LastAt(conv, run);
    forall i | 0 <= i < |front|
      ensures QuietAt(conv, run, i) == QuietAt(conv, front, i) && OpenAt(conv, run, i) == OpenAt(conv, front, i)
      ensures SkipAt(conv, run, i) == SkipAt(conv, front, i)
    {
      SameAt(conv, run, i);
    }
  }

  lemma LastAt(conv: nat, run: seq<Datagram>)
    requires run != []
    ensures QuietAt(conv, run, |run| - 1) == (FeedLast(conv, run).1 == [])
    ensures OpenAt(conv, run, |run| - 1) == (After(conv, run).pending != map[])
    ensures SkipAt(conv, run, |run| - 1) == (After(conv, run).skipped != After(conv, run[..|run| - 1]).skipped)
  {
    hide FeedLast, After;
    assert run[..|run|] == run;
  }

  lemma SameAt(conv: nat, run: seq<Datagram>, i: nat)
    requires i < |run| - 1
    ensures var front := run[..|run| - 1];
      && QuietAt(conv, run, i) == QuietAt(conv, front, i) && OpenAt(conv, run, i) == OpenAt(conv, front, i)
      && SkipAt(conv, run, i) == SkipAt(conv, front, i)
  {
    hide FeedLast, After;
    assert run[..|run| - 1][..i + 1] == run[..i + 1];
    assert run[..|run| - 1][..i] == run[..i];
  }

  lemma SameBegin(conv: nat, run: seq<Datagram>, k: nat)
    requires k < |run| - 1
    ensures BeginsAt(conv, run, k) == BeginsAt(conv, run[..|run| - 1], k)
  {
    hide QuietAt, OpenAt, SkipAt;
    SameAt(conv, run, k);
    if k > 0 {
      SameAt(conv, run, k - 1);
    }
  }

  /** A stretch that is quiet up to now began at one feed only. */
  lemma OneBegin(conv: nat, run: seq<Datagram>, k: nat, l: nat)
    requires QuietSince(conv, run, k) && BeginsAt(conv, run, k)
    requires QuietSince(conv, run, l) && BeginsAt(conv, run, l)
    ensures k == l
  {
    hide QuietAt, OpenAt, SkipAt;
  }

  lemma {:induction false} TakeKeepsTimer(st: State, conv: nat, segments: seq<Segment>)
    ensures TakeAll(st, conv, segments).gapSince == st.gapSince && TakeAll(st, conv, segments).skipped == st.skipped
    decreases |segments|
  {
    if segments != [] {
      TakeKeepsTimer(Take(st, conv, segments[0]), conv, segments[1..]);
    }
  }

  lemma {:induction false} DrainKeepsTimer(st: State)
    ensures var drained := Drain(st).0;
      drained.gapSince == st.gapSince && drained.skipped == st.skipped && drained.next !in drained.pending
    decreases st.pending.Keys
  {
    if st.next in st.pending {
      DrainUnfolds(st);
      assert st.next in st.pending.Keys && MoveNext(st).pending.Keys == st.pending.Keys - {st.next};
      DrainKeepsTimer(MoveNext(st));
    }
  }

  lemma SkipClearsTimer(st: State)
    ensures SkipGap(st) == st || (SkipGap(st).gapSince.None? && SkipGap(st).skipped == st.skipped + 1)
  {}

  /** What one feed does to the timer. */
  lemma TimerStep(conv: nat, run: seq<Datagram>)
    requires run != []
    ensures var front, fed := After(conv, run[..|run| - 1]), After(conv, run);
      var (drained, messages) := OwnDrain(conv, run);
      && drained.gapSince == front.gapSince && drained.skipped == front.skipped && drained.next !in drained.pending
      && var skips := drained.pending != map[] && messages == [] && Ends(drained.pending) != {}
                      && front.gapSince.Some? && run[|run| - 1].now - front.gapSince.value >= 3.0;
         && fed.skipped == front.skipped + (if skips then 1 else 0)
         && (skips ==> fed.gapSince.None?)
         && (!skips ==> fed == drained.(gapSince := fed.gapSince) && FeedLast(conv, run).1 == messages)
         && (!skips ==> fed.gapSince == if drained.pending == map[] then None
                                        else if front.gapSince.None? || messages != [] then Some(run[|run| - 1].now)
                                        else front.gapSince)
  {
    hide TakeAll, Drain, Segments;
    var front, last := run[..|run| - 1], run[|run| - 1];
    var taken := TakeAll(After(conv, front), conv, Segments(last.data, 0));
    TakeKeepsTimer(After(conv, front), conv, Segments(last.data, 0));
    DrainKeepsTimer(taken);
    var (drained, messages) := Drain(taken);
    DrainKeepsTimer(SkipGap(drained));
    DrainStops(drained);
  }

  /** The state and messages of the last feed's own drain, before its timer is looked at. */
  ghost function OwnDrain(conv: nat, run: seq<Datagram>): (State, seq<message>)
    requires run != []
  {
    var last := run[|run| - 1];
    Drain(TakeAll(After(conv, run[..|run| - 1]), conv, Segments(last.data, 0)))
  }

  /** The timer runs exactly if something is pending and the last feed did not skip. */
  lemma TimerRunsIff(conv: nat, run: seq<Datagram>)
    ensures After(conv, run).gapSince.Some? <==>
      run != [] && OpenAt(conv, run, |run| - 1) && !SkipAt(conv, run, |run| - 1)
  {
    if run != [] {
      hide FeedLast, After, OwnDrain;
      LastAt(conv, run);
      TimerStep(conv, run);
    } else {
      assert START.gapSince.None?;
    }
  }

  /** The timer reads the time of the feed at which the stretch began that has been open and quiet
      since. */
  lemma {:induction false} TimerIsQuiet(conv: nat, run: seq<Datagram>) returns (k: nat)
    requires After(conv, run).gapSince.Some?
    ensures QuietSince(conv, run, k) && BeginsAt(conv, run, k) && run[k].now == After(conv, run).gapSince.value
    decreases |run|
  {
    hide After, FeedLast, OwnDrain, QuietSince, BeginsAt, QuietAt, OpenAt, SkipAt;
    TimerRunsIff(conv, run);
    LastAt(conv, run);
    TimerStep(conv, run);
    var front := run[..|run| - 1];
    TimerRunsIff(conv, front);
    if After(conv, front).gapSince.None? || OwnDrain(conv, run).1 != [] {
      k := |run| - 1;
      QuietStarts(conv, run);
    } else {
      k := TimerIsQuiet(conv, front);
      QuietWithin(conv, front, k);
      QuietGrows(conv, run, k);
      SameBegin(conv, run, k);
    }
  }

  lemma QuietWithin(conv: nat, run: seq<Datagram>, k: nat)
    requires QuietSince(conv, run, k)
    ensures k < |run| && OpenAt(conv, run, |run| - 1) && !SkipAt(conv, run, |run| - 1)
  {}

  lemma QuietStarts(conv: nat, run: seq<Datagram>)
    requires run != [] && OpenAt(conv, run, |run| - 1) && !SkipAt(conv, run, |run| - 1)
    requires var front := run[..|run| - 1];
      || !QuietAt(conv, run, |run| - 1)
      || !(front != [] && OpenAt(conv, front, |front| - 1) && !SkipAt(conv, front, |front| - 1))
    ensures QuietSince(conv, run, |run| - 1) && BeginsAt(conv, run, |run| - 1)
  {
    hide QuietAt, OpenAt, SkipAt;
    if |run| > 1 {
      SameAt(conv, run, |run| - 2);
    }
  }

  /** A feed skips exactly if its own drain completes nothing, a message end is pending after it, and
      three seconds or more have passed since the feed at which this quiet stretch began. The count
      goes up by one then. */
  lemma SkipsIff(conv: nat, run: seq<Datagram>)
    requires run != []
    ensures var front, (drained, messages) := run[..|run| - 1], OwnDrain(conv, run);
      SkipAt(conv, run, |run| - 1) <==>
        && messages == [] && (exists sn :: sn in drained.pending && drained.pending[sn].frg == 0)
        && exists k: nat :: QuietSince(conv, front, k) && BeginsAt(conv, front, k)
                            && run[|run| - 1].now - run[k].now >= 3.0
    ensures After(conv, run).skipped
         == After(conv, run[..|run| - 1]).skipped + if SkipAt(conv, run, |run| - 1) then 1 else 0
  {
    hide After, FeedLast, OwnDrain, QuietSince, BeginsAt, QuietAt, OpenAt, SkipAt;
    var front, drained := run[..|run| - 1], OwnDrain(conv, run).0;
    LastAt(conv, run);
    TimerStep(conv, run);
    TimerRunsIff(conv, front);
    EndsIff(drained.pending);
    forall k: nat | QuietSince(conv, front, k) ensures k < |front| {
      QuietWithin(conv, front, k);
    }
    forall k: nat | k < |front| && QuietSince(conv, front, k) && BeginsAt(conv, front, k)
      ensures After(conv, front).gapSince == Some(run[k].now)
    {
      QuietWithin(conv, front, k);
      var l := TimerIsQuiet(conv, front);
      OneBegin(conv, front, k, l);
    }
    if After(conv, front).gapSince.Some? {
      var l := TimerIsQuiet(conv, front);
      QuietWithin(conv, front, l);
      assert run[l] == front[l];
    }
  }

  lemma EndsIff(pending: map<nat, Fragment>)
    ensures Ends(pending) != {} <==> exists sn :: sn in pending && pending[sn].frg == 0
  {
    if sn :| sn in pending && pending[sn].frg == 0 {
      assert sn in Ends(pending);
    }
  }
}
