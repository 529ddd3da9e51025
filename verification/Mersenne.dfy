/** MT19937-64 as capture/crypto.py computes it, word by needed word, against the generator of
    ISO/IEC 14882:2011 sections 26.5.3.2 and 26.5.5, which refills 312 words in place. */
module Mersenne {
  import opened Lists

  const MT_N := 312
  const MT_M := 156

  type word = bv64

  // ----- The growing list of words

  /** The next of the 312 words the seed makes. */
  function Seeded(previous: word, i: nat): word
    requires i < MT_N
  {
    Scaled(Folded(previous), i as bv64)
  }

  function Folded(x: word): word { x ^ (x >> 62) }

  function Scaled(x: word, i: word): word { 6364136223846793005 * x + i }

  /** A generated word, from the words 312, 311 and 156 places before it. */
  function Twist(first: word, second: word, middle: word): word {
    var y := Joined(first, second);
    Mixed(middle, y, Row(y))
  }

  /** The upper 33 bits of one word and the lower 31 of the next. */
  function Joined(first: word, second: word): word {
    (first & 0xFFFFFFFF80000000) | (second & 0x7FFFFFFF)
  }

  function Mixed(middle: word, y: word, row: word): word {
    middle ^ (y >> 1) ^ row
  }

  function Row(y: word): word {
    (y & 1) * 0xB5026F5AA96619E9
  }

  /** `temper`, one function to each of its lines. */
  function Temper(x: word): word {
    Temper4(Temper3(Temper2(Temper1(x))))
  }

  function Temper1(x: word): word { x ^ ((x >> 29) & 0x5555555555555555) }

  function Temper2(x: word): word { x ^ ((x << 17) & 0x71D67FFFEDA60000) }

  function Temper3(x: word): word { x ^ ((x << 37) & 0xFFF7EEE000000000) }

  function Temper4(x: word): word { x ^ (x >> 43) }

  /** Word `j` of the list a seed starts. */
  function Word(seed: word, j: nat): word {
    if j == 0 then seed
    else if j < MT_N then Seeded(Word(seed, j - 1), j)
    else Twist(Word(seed, j - MT_N), Word(seed, j - MT_N + 1), Word(seed, j - MT_M))
  }

  /** Number `i` of the generator. */
  function Output(seed: word, i: nat): word {
    Temper(Word(seed, MT_N + i))
  }

  // ----- The sparse generator

  /** Every generated word in the set has the three words it is made from in the set. */
  ghost predicate Closed(words: set<nat>) {
    forall j {:trigger Sources(j)} :: j in words && j >= MT_N ==> Sources(j) <= words
  }

  function Sources(j: nat): set<nat>
    requires j >= MT_N
  {
    {j - MT_N, j - MT_N + 1, j - MT_M}
  }

  ghost predicate CoversOutputs(words: set<nat>, outputs: seq<nat>) {
    forall k :: 0 <= k < |outputs| ==> MT_N + outputs[k] in words
  }

  /** The words in `needed` have their sources in `all`, which holds the outputs, nothing above the
      last of them, and nothing that a closed set over the outputs could do without. */
  ghost predicate Seeks(needed: set<nat>, all: set<nat>, outputs: seq<nat>) {
    && needed <= all <= UpTo(Largest(outputs) + MT_N)
    && CoversOutputs(all, outputs)
    && (forall j {:trigger Sources(j)} :: j in needed && j >= MT_N ==> Sources(j) <= all)
    && forall words :: Closed(words) && CoversOutputs(words, outputs) ==> all <= words
  }

  lemma SeekStarts(outputs: seq<nat>)
    ensures Seeks({}, set k | 0 <= k < |outputs| :: MT_N + outputs[k], outputs)
  {}

  lemma SeekGoesOn(needed: set<nat>, all: set<nat>, outputs: seq<nat>, j: nat)
    requires Seeks(needed, all, outputs) && j in all
    ensures Seeks(needed + {j}, all + (if j >= MT_N then Sources(j) else {}), outputs)
  {
    hide UpTo, Largest;
    forall words | Closed(words) && CoversOutputs(words, outputs)
      ensures all + (if j >= MT_N then Sources(j) else {}) <= words
    {
      assert j in words;
    }
  }

  lemma SeekIsOver(needed: set<nat>, outputs: seq<nat>)
    requires Seeks(needed, needed, outputs)
    ensures Closed(needed) && CoversOutputs(needed, outputs)
    ensures forall words :: Closed(words) && CoversOutputs(words, outputs) ==> needed <= words
  {}

  ghost function Elements(list: seq<nat>): set<nat> {
    set x | x in list
  }

  lemma LastElement(list: seq<nat>)
    requires list != []
    ensures Elements(list) == Elements(list[..|list| - 1]) + {list[|list| - 1]}
  {}

  /** The worklist of `mersenne`. What it collects is the least closed set over the outputs, and it
      ends because each round takes in a new word or shortens the list. */
  method NeededWords(outputs: seq<nat>) returns (needed: set<nat>)
    ensures Closed(needed) && CoversOutputs(needed, outputs)
    ensures forall words :: Closed(words) && CoversOutputs(words, outputs) ==> needed <= words
  {
    hide Closed, CoversOutputs, UpTo, Largest, Elements, Seeks;
    needed := {};
    var pending: seq<nat> := seq(|outputs|, k requires 0 <= k < |outputs| => MT_N + outputs[k]);
    ghost var all, universe := Elements(pending), UpTo(Largest(outputs) + MT_N);
    SeekStarts(outputs);
    OutputsPending(outputs, pending);
    while pending != []
      invariant Seeks(needed, all, outputs) && all == needed + Elements(pending)
      decreases universe - needed, |pending|
    {
      var j := pending[|pending| - 1];
      LastElement(pending);
      pending := pending[..|pending| - 1];
      if j !in needed {
        StillToCome(needed, all, outputs, j);
        SeekGoesOn(needed, all, outputs, j);
        needed := needed + {j};
        assert all + {} == all;
        if j >= MT_N {
          SourcesAppended(pending, j);
          pending := pending + [j - MT_N, j - MT_N + 1, j - MT_M];
          all := all + Sources(j);
        }
      }
    }
    NothingPending();
    assert all == needed;
    SeekIsOver(needed, outputs);
  }

  lemma OutputsPending(outputs: seq<nat>, pending: seq<nat>)
    requires pending == seq(|outputs|, k requires 0 <= k < |outputs| => MT_N + outputs[k])
    ensures Elements(pending) == set k | 0 <= k < |outputs| :: MT_N + outputs[k]
  {
    forall k | 0 <= k < |outputs| ensures MT_N + outputs[k] in pending {
      assert pending[k] == MT_N + outputs[k];
    }
  }

  lemma StillToCome(needed: set<nat>, all: set<nat>, outputs: seq<nat>, j: nat)
    requires Seeks(needed, all, outputs) && j in all && j !in needed
    ensures var universe := UpTo(Largest(outputs) + MT_N); universe - (needed + {j}) < universe - needed
  {
    hide UpTo, Largest, CoversOutputs, Closed;
    var universe := UpTo(Largest(outputs) + MT_N);
    assert j in universe - needed;
  }

  lemma SourcesAppended(list: seq<nat>, j: nat)
    requires j >= MT_N
    ensures Elements(list + [j - MT_N, j - MT_N + 1, j - MT_M]) == Elements(list) + Sources(j)
  {}

  lemma NothingPending()
    ensures Elements([]) == {}
  {}

  ghost function Largest(list: seq<nat>): (bound: nat)
    ensures forall k :: 0 <= k < |list| ==> list[k] <= bound
  {
    if list == [] then 0
    else var rest := Largest(list[..|list| - 1]); if list[|list| - 1] > rest then list[|list| - 1] else rest
  }

  ghost function UpTo(bound: nat): (all: set<nat>)
    ensures forall j: nat :: j in all <==> j <= bound
  {
    if bound == 0 then {0} else UpTo(bound - 1) + {bound}
  }

  /** A closed set with a word in it has one of the seed's own 312. */
  lemma {:induction false} ReachesSeedWords(words: set<nat>, j: nat)
    requires Closed(words) && j in words
    ensures exists i: nat :: i < MT_N && i in words
  {
    if j >= MT_N {
      assert j - MT_N in Sources(j);
      ReachesSeedWords(words, j - MT_N);
    }
  }

  /** The words already made: exactly the needed ones below `i` and the generated ones so far. */
  ghost predicate Made(words: map<nat, word>, seed: word, needed: set<nat>, i: nat, generated: seq<nat>) {
    && (forall j :: j in words <==> j in needed && (j < i || j in generated))
    && (forall j :: j in words ==> words[j] == Word(seed, j))
  }

  /** The needed words of the seed, made in one pass to the last of them. */
  method SeedWords(seed: word, needed: set<nat>) returns (words: map<nat, word>)
    requires exists i: nat :: i < MT_N && i in needed
    ensures Made(words, seed, needed, MT_N, [])
  {
    hide Seeded, Twist, Word, Made;
    var lastSeeded := 0;
    for j := 0 to MT_N
      invariant lastSeeded < MT_N && (lastSeeded == 0 || lastSeeded in needed)
      invariant forall x: nat :: x < j && x in needed ==> x <= lastSeeded
    {
      if j in needed {
        lastSeeded := j;
      }
    }
    words := map[];
    var word := seed;
    NothingMade(seed, needed);
    WordSeeded(seed, 0);
    for i := 0 to lastSeeded + 1
      invariant word == Word(seed, if i == 0 then 0 else i - 1)
      invariant Made(words, seed, needed, i, [])
    {
      WordSeeded(seed, i);
      MadeOneMore(words, seed, needed, i);
      if i > 0 {
        word := Seeded(word, i);
      }
      if i in needed {
        words := words[i := word];
      }
    }
    MadeAllSeeded(words, seed, needed, lastSeeded + 1);
  }

  lemma NothingMade(seed: word, needed: set<nat>)
    ensures Made(map[], seed, needed, 0, [])
  {}

  lemma WordSeeded(seed: word, i: nat)
    requires i < MT_N
    ensures Word(seed, i) == if i == 0 then seed else Seeded(Word(seed, i - 1), i)
  {}

  lemma MadeOneMore(words: map<nat, word>, seed: word, needed: set<nat>, i: nat)
    requires Made(words, seed, needed, i, [])
    ensures Made(if i in needed then words[i := Word(seed, i)] else words, seed, needed, i + 1, [])
  {
    hide Word;
    var more := if i in needed then words[i := Word(seed, i)] else words;
    forall j ensures j in more <==> j in needed && j < i + 1 {
      assert j in words <==> j in needed && j < i;
    }
  }

  lemma MadeAllSeeded(words: map<nat, word>, seed: word, needed: set<nat>, i: nat)
    requires Made(words, seed, needed, i, []) && i <= MT_N && forall x: nat :: i <= x < MT_N ==> x !in needed
    ensures Made(words, seed, needed, MT_N, [])
  {
    hide Word;
  }

  /** `mersenne` for one seed. Every word is made after the three it reads, no other word is
      kept, and the rows are the generator's outputs at the positions asked for. */
  method Mersenne(seed: word, outputs: seq<nat>) returns (rows: seq<word>)
    requires outputs != []
    ensures |rows| == |outputs|
    ensures forall k :: 0 <= k < |outputs| ==> rows[k] == Output(seed, outputs[k])
  {
    hide Word, Twist, Temper, Made, Closed, SourcesMade;
    var needed := NeededWords(outputs);
    ReachesSeedWords(needed, MT_N + outputs[0]);
    var words: map<nat, word> := SeedWords(seed, needed);
    var generated := Sorted(set j | j in needed && j >= MT_N);
    assert generated[..0] == [];
    for k := 0 to |generated|
      invariant Made(words, seed, needed, MT_N, generated[..k])
    {
      var j: nat := generated[k];
      MadeGrows(words, seed, needed, generated, k);
      WordFromMade(words, seed, j);
      words := words[j := Twist(words[j - MT_N], words[j - MT_N + 1], words[j - MT_M])];
    }
    assert generated[..|generated|] == generated;
    MadeAll(words, seed, needed, generated);
    rows := seq(|outputs|, k requires 0 <= k < |outputs| => Temper(words[MT_N + outputs[k]]));
  }

  lemma MadeAll(words: map<nat, word>, seed: word, needed: set<nat>, generated: seq<nat>)
    requires Made(words, seed, needed, MT_N, generated)
    requires forall j :: j in generated <==> j in needed && j >= MT_N
    ensures forall j :: j in needed ==> j in words && words[j] == Word(seed, j)
  {}

  /** Word `generated[k]` can be made once the generated words before it are. */
  lemma MadeGrows(words: map<nat, word>, seed: word, needed: set<nat>, generated: seq<nat>, k: nat)
    requires Closed(needed) && k < |generated|
    requires forall a, c :: 0 <= a < c < |generated| ==> generated[a] < generated[c]
    requires forall j :: j in generated <==> j in needed && j >= MT_N
    requires Made(words, seed, needed, MT_N, generated[..k])
    ensures generated[k] >= MT_N && SourcesMade(words, seed, generated[k])
    ensures Made(words[generated[k] := Word(seed, generated[k])], seed, needed, MT_N, generated[..k + 1])
  {
    hide Word;
    var j := generated[k];
    EarlierWordsMade(needed, generated, k);
    forall s | s in Sources(j) ensures s in words {}
    assert generated[..k + 1] == generated[..k] + [j];
    assert j in generated;
  }

  ghost predicate SourcesMade(words: map<nat, word>, seed: word, j: nat)
    requires j >= MT_N
  {
    forall s :: s in Sources(j) ==> s in words && words[s] == Word(seed, s)
  }

  lemma WordFromMade(words: map<nat, word>, seed: word, j: nat)
    requires j >= MT_N && SourcesMade(words, seed, j)
    ensures j - MT_N in words && j - MT_N + 1 in words && j - MT_M in words
    ensures Twist(words[j - MT_N], words[j - MT_N + 1], words[j - MT_M]) == Word(seed, j)
  {
    hide Word, Twist;
    WordUnfolds(seed, j);
    assert j - MT_N in Sources(j) && j - MT_N + 1 in Sources(j) && j - MT_M in Sources(j);
  }

  lemma WordUnfolds(seed: word, j: nat)
    requires j >= MT_N
    ensures Word(seed, j) == Twist(Word(seed, j - MT_N), Word(seed, j - MT_N + 1), Word(seed, j - MT_M))
  {}

  lemma EarlierWordsMade(needed: set<nat>, generated: seq<nat>, k: nat)
    requires Closed(needed) && k < |generated|
    requires forall a, c :: 0 <= a < c < |generated| ==> generated[a] < generated[c]
    requires forall j :: j in generated <==> j in needed && j >= MT_N
    ensures generated[k] >= MT_N
    ensures forall s :: s in Sources(generated[k]) ==> s in needed && (s < MT_N || s in generated[..k])
  {
    assert generated[k] in generated;
    forall s | s in Sources(generated[k]) ensures s in needed && (s < MT_N || s in generated[..k]) {
      if s >= MT_N {
        assert s in generated;
        var a :| 0 <= a < |generated| && generated[a] == s;
        assert generated[..k][a] == s;
      }
    }
  }

  // ----- Tempering undone

  function UndoTemper4(y: word): word { y ^ (y >> 43) }

  function UndoTemper3(y: word): word { y ^ ((y << 37) & 0xFFF7EEE000000000) }

  /** Each round makes 17 more bits right, from the lowest up. */
  function UndoTemper2(y: word): word {
    var x := y ^ ((y << 17) & 0x71D67FFFEDA60000);
    var x' := y ^ ((x << 17) & 0x71D67FFFEDA60000);
    y ^ ((x' << 17) & 0x71D67FFFEDA60000)
  }

  /** Each round makes 29 more bits right, from the highest down. */
  function UndoTemper1(y: word): word {
    var x := y ^ ((y >> 29) & 0x5555555555555555);
    y ^ ((x >> 29) & 0x5555555555555555)
  }

  /** The state word that a number was made from. */
  function Untemper(number: word): word {
    UndoTemper1(UndoTemper2(UndoTemper3(UndoTemper4(number))))
  }

  lemma Undone4(x: word)
    ensures UndoTemper4(x ^ (x >> 43)) == x
  {}

  lemma Undone3(x: word)
    ensures UndoTemper3(x ^ ((x << 37) & 0xFFF7EEE000000000)) == x
  {}

  lemma Undone2(x: word)
    ensures UndoTemper2(x ^ ((x << 17) & 0x71D67FFFEDA60000)) == x
  {}

  lemma Undone1(x: word)
    ensures UndoTemper1(x ^ ((x >> 29) & 0x5555555555555555)) == x
  {}

  lemma Line1(x: word)
    ensures Temper1(x) == x ^ ((x >> 29) & 0x5555555555555555)
  {}

  lemma Line2(x: word)
    ensures Temper2(x) == x ^ ((x << 17) & 0x71D67FFFEDA60000)
  {}

  lemma Line3(x: word)
    ensures Temper3(x) == x ^ ((x << 37) & 0xFFF7EEE000000000)
  {}

  lemma Line4(x: word)
    ensures Temper4(x) == x ^ (x >> 43)
  {}

  lemma Undo1(x: word)
    ensures UndoTemper1(Temper1(x)) == x
  {
    hide *;
    Line1(x);
    Undone1(x);
  }

  lemma Undo2(x: word)
    ensures UndoTemper2(Temper2(x)) == x
  {
    hide *;
    Line2(x);
    Undone2(x);
  }

  lemma Undo3(x: word)
    ensures UndoTemper3(Temper3(x)) == x
  {
    hide *;
    Line3(x);
    Undone3(x);
  }

  lemma Undo4(x: word)
    ensures UndoTemper4(Temper4(x)) == x
  {
    hide *;
    Line4(x);
    Undone4(x);
  }

  /** Tempering loses nothing: every number gives its word back. */
  lemma UntemperUndoes(x: word)
    ensures Untemper(Temper(x)) == x
  {
    hide Temper1, Temper2, Temper3, Temper4, UndoTemper1, UndoTemper2, UndoTemper3, UndoTemper4;
    Undo1(x);
    Undo2(Temper1(x));
    Undo3(Temper2(Temper1(x)));
    Undo4(Temper3(Temper2(Temper1(x))));
  }

  // ----- The steps of section 26.5.3.2, from the parameters in section 26.5.5

  /** Seeding: the word before with its top two bits folded in, times the multiplier, plus the
      position. */
  function StandardSeeded(previous: word, i: nat): (next: word)
    requires i < MT_N
    ensures next == Seeded(previous, i)
  {
    hide *;
    SeedingIs(previous, i);
    var folded := FoldedTop(previous);
    PlusTimes(i as bv64, folded)
  }

  function FoldedTop(x: word): word { x ^ ((x & 0xC000000000000000) >> 62) }

  function PlusTimes(i: word, x: word): word { i + x * 0x5851F42D4C957F2D }

  lemma FoldedIs(x: word)
    ensures FoldedTop(x) == x ^ (x >> 62)
  {}

  lemma FoldedTopIs(x: word)
    ensures FoldedTop(x) == Folded(x)
  {
    hide FoldedTop;
    FoldedIs(x);
  }

  lemma ScaledIs(x: word, i: word)
    ensures PlusTimes(i, x) == Scaled(x, i)
  {}

  lemma SeedingIs(previous: word, i: nat)
    requires i < MT_N
    ensures Seeded(previous, i) == PlusTimes(i as bv64, FoldedTop(previous))
  {
    hide Folded, FoldedTop, PlusTimes, Scaled;
    FoldedTopIs(previous);
    ScaledIs(Folded(previous), i as bv64);
  }

  /** Transition: the upper 33 bits of one word with the lower 31 of the next, shifted right, and
      with the matrix row if the last of those bits is set. */
  function StandardTwist(first: word, second: word, middle: word): (next: word)
    ensures next == Twist(first, second, middle)
  {
    hide *;
    var joined := HighWithLow(first, second);
    HighWithLowIs(first, second);
    TwistIs(first, second, middle);
    if IsOdd(joined) then MixedIn(middle, joined) ^ 0xB5026F5AA96619E9 else MixedIn(middle, joined)
  }

  function HighWithLow(first: word, second: word): word {
    ((first >> 31) << 31) ^ ((second << 33) >> 33)
  }

  predicate IsOdd(x: word) { x & 1 == 1 }

  function MixedIn(middle: word, y: word): word { (y >> 1) ^ middle }

  lemma HighWithLowIs(first: word, second: word)
    ensures HighWithLow(first, second) == (first & 0xFFFFFFFF80000000) | (second & 0x7FFFFFFF)
  {}

  lemma TwistIs(first: word, second: word, middle: word)
    ensures var y := (first & 0xFFFFFFFF80000000) | (second & 0x7FFFFFFF);
      Twist(first, second, middle) == if IsOdd(y) then MixedIn(middle, y) ^ 0xB5026F5AA96619E9 else MixedIn(middle, y)
  {
    hide Row, Mixed, IsOdd, MixedIn;
    var y := Joined(first, second);
    RowIs(y);
    MixedIs(middle, y);
  }

  lemma RowIs(y: word)
    ensures Row(y) == if IsOdd(y) then 0xB5026F5AA96619E9 else 0
  {}

  lemma MixedIs(middle: word, y: word)
    ensures Mixed(middle, y, 0) == MixedIn(middle, y)
    ensures Mixed(middle, y, 0xB5026F5AA96619E9) == MixedIn(middle, y) ^ 0xB5026F5AA96619E9
  {}

  // ----- The reference generator

  /** The generator as the standard describes it: a state of 312 words, refilled all at once. */
  class Reference {
    const mt: array<word>
    var mti: nat
    ghost const seed: word
    ghost var refills: nat

    /** The state holds the 312 words after the last refill. */
    ghost predicate Valid()
      reads this, mt
    {
      && mt.Length == MT_N && mti <= MT_N && (refills == 0 ==> mti == MT_N)
      && forall i :: 0 <= i < MT_N ==> mt[i] == Word(seed, MT_N * refills + i)
    }

    /** How many numbers have been handed out. */
    ghost function Drawn(): nat
      requires Valid()
      reads this, mt
    {
      MT_N * refills + mti - MT_N
    }

    constructor (seed: word)
      ensures Valid() && Drawn() == 0 && this.seed == seed && fresh(mt)
    {
      hide Seeded, Twist, StandardSeeded;
      mt := new word[MT_N];
      mti := MT_N;
      this.seed, refills := seed, 0;
      new;
      mt[0] := seed;
      for i := 1 to MT_N
        invariant forall k :: 0 <= k < i ==> mt[k] == Word(seed, k)
        invariant mti == MT_N && refills == 0 && this.seed == seed
      {
        mt[i] := StandardSeeded(mt[i - 1], i);
      }
    }

    /** The next number. */
    method Next() returns (number: word)
      requires Valid()
      modifies this, mt
      ensures Valid() && Drawn() == old(Drawn()) + 1
      ensures number == Output(seed, old(Drawn()))
    {
      hide Seeded, Twist, Temper1, Temper2, Temper3, Temper4;
      if mti >= MT_N {
        Refill();
      }
      number := mt[mti];
      Line1(number);
      number := number ^ ((number >> 29) & 0x5555555555555555);
      Line2(number);
      number := number ^ ((number << 17) & 0x71D67FFFEDA60000);
      Line3(number);
      number := number ^ ((number << 37) & 0xFFF7EEE000000000);
      Line4(number);
      number := number ^ (number >> 43);
      mti := mti + 1;
    }

    /** Replaces the whole state in place. The last word is made with the new first one. */
    method Refill()
      requires Valid() && mti == MT_N
      modifies this, mt
      ensures Valid() && mti == 0 && refills == old(refills) + 1
    {
      hide Word, Twist, StandardTwist;
      ghost var base := MT_N * refills;
      for i := 0 to MT_N
        invariant forall k :: 0 <= k < i ==> mt[k] == Word(seed, base + MT_N + k)
        invariant forall k :: i <= k < MT_N ==> mt[k] == Word(seed, base + k)
        invariant mti == MT_N && refills == old(refills)
      {
        var second := if i == MT_N - 1 then 0 else i + 1;
        var middle := if i < MT_N - MT_M then i + MT_M else i + MT_M - MT_N;
        assert mt[second] == Word(seed, base + i + 1);
        assert mt[middle] == Word(seed, base + i + MT_M);
        WordUnfolds(seed, base + MT_N + i);
        mt[i] := StandardTwist(mt[i], mt[second], mt[middle]);
      }
      refills := refills + 1;
      mti := 0;
    }
  }


  /** For every seed and every non-empty list of positions, the sparse generator gives what the
      reference hands out at those positions. */
  method MatchesReference(seed: word, outputs: seq<nat>) returns (rows: seq<word>, drawn: seq<word>)
    requires outputs != []
    ensures |rows| == |outputs|
    ensures forall k :: 0 <= k < |outputs| ==> outputs[k] < |drawn| && rows[k] == drawn[outputs[k]]
    ensures forall i :: 0 <= i < |drawn| ==> drawn[i] == Output(seed, i)
  {
    hide Output;
    rows := Mersenne(seed, outputs);
    var reference := new Reference(seed);
    drawn := [];
    ghost var last := Largest(outputs);
    var k := 0;
    while k < |outputs|
      invariant k <= |outputs| && reference.Valid() && reference.Drawn() == |drawn| && reference.seed == seed
      invariant fresh(reference) && fresh(reference.mt)
      invariant forall i :: 0 <= i < |drawn| ==> drawn[i] == Output(seed, i)
      invariant forall l :: 0 <= l < k ==> outputs[l] < |drawn|
    {
      while |drawn| <= outputs[k]
        invariant reference.Valid() && reference.Drawn() == |drawn| && reference.seed == seed
        invariant fresh(reference) && fresh(reference.mt)
        invariant forall i :: 0 <= i < |drawn| ==> drawn[i] == Output(seed, i)
        invariant forall l :: 0 <= l < k ==> outputs[l] < |drawn|
      {
        var number := reference.Next();
        drawn := drawn + [number];
      }
      k := k + 1;
    }
  }
}
