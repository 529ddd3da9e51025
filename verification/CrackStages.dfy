/** The six staged expansions of stages/crack.py and the order `plan_stages` puts them in. */
module CrackStages {
  import opened BlockMask

  /** The expansions in stage order. Each fixes the key bytes in its name. */
  datatype Expansion = Expand12 | Expand0 | Expand3 | Expand4 | Expand6 | Expand5

  datatype Stage = Stage(expand: Expansion, span: nat, beam: nat, entries: seq<nat>, pairs: seq<nat>)

  const ORDER := [Expand12, Expand0, Expand3, Expand4, Expand6, Expand5]

  function Entries(e: Expansion): seq<nat> {
    match e
    case Expand12 => [0x01, 0x02, 0x08, 0x0A, 0x0B, 0x0F, 0x10, 0x12]
    case Expand0 => [0x00, 0x07, 0x09, 0x0C, 0x11]
    case Expand3 => [0x03, 0x0D, 0x0E, 0x13, 0x17, 0x19, 0x1C]
    case Expand4 => [0x04, 0x14, 0x1A, 0x1D, 0x1F]
    case Expand6 => [0x06, 0x16, 0x1B]
    case Expand5 => [0x05, 0x15, 0x18, 0x1E]
  }

  function Span(e: Expansion): nat {
    if e == Expand12 then 0x10000 else 0x100
  }

  /** The number of the stage that makes entry `j` known, counted from 1. */
  function EntryStage(j: nat): nat {
    if j == 0x01 || j == 0x02 || j == 0x08 || j == 0x0A || j == 0x0B || j == 0x0F || j == 0x10 || j == 0x12 then 1
    else if j == 0x00 || j == 0x07 || j == 0x09 || j == 0x0C || j == 0x11 then 2
    else if j == 0x03 || j == 0x0D || j == 0x0E || j == 0x13 || j == 0x17 || j == 0x19 || j == 0x1C then 3
    else if j == 0x04 || j == 0x14 || j == 0x1A || j == 0x1D || j == 0x1F then 4
    else if j == 0x06 || j == 0x16 || j == 0x1B then 5
    else 6
  }

  predicate PairKnown(j: nat, i: nat) {
    EntryStage(j) <= i && EntryStage(j + 1) <= i
  }

  /** The entries known after the first `i` stages. */
  ghost function Known(i: nat): set<nat> {
    set j: nat | j < 32 && EntryStage(j) <= i
  }

  /** The adjacent pairs whose two entries are both known after the first `i` stages. */
  ghost function KnownPairs(i: nat): set<nat> {
    set j: nat | j < 31 && PairKnown(j, i)
  }

  ghost predicate Ascending(list: seq<nat>) {
    forall k, l :: 0 <= k < l < |list| ==> list[k] < list[l]
  }

  ghost function Elements(list: seq<nat>): set<nat> {
    set x | x in list
  }

  lemma EntriesOfStage(i: nat, j: nat)
    requires i < 6
    ensures j in Entries(ORDER[i]) <==> j < 32 && EntryStage(j) == i + 1
  {}

  /** The entry lists of the stages are ascending and partition the mask. */
  lemma StageEntries(i: nat)
    requires i < 6
    ensures Elements(Entries(ORDER[i])) == Known(i + 1) - Known(i)
    ensures Elements(Entries(ORDER[i])) + Known(i) == Known(i + 1)
  {
    forall j: nat ensures j in Entries(ORDER[i]) <==> j < 32 && EntryStage(j) == i + 1 {
      EntriesOfStage(i, j);
    }
  }

  lemma EntriesAscending(e: Expansion)
    ensures Ascending(Entries(e))
  {}

  /** Before the first stage nothing is known. After the last, everything is. */
  lemma KnownEnds()
    ensures Known(0) == {} && KnownPairs(0) == {}
    ensures forall j: nat :: j in Known(6) <==> j < 32
    ensures forall j: nat :: j in KnownPairs(6) <==> j < 31
  {}

  lemma PairsGrow(i: nat)
    ensures KnownPairs(i) <= KnownPairs(i + 1)
  {}

  ghost predicate Planned(stage: Stage, i: nat, wideBeam: nat, beam: nat)
    requires i < 6
  {
    && stage.expand == ORDER[i]
    && stage.span == Span(ORDER[i])
    && stage.beam == (if i == 0 then wideBeam else beam)
    && stage.entries == Entries(ORDER[i])
    && Ascending(stage.pairs)
    && Elements(stage.pairs) == KnownPairs(i + 1) - KnownPairs(i)
  }

  /** `plan_stages`: each stage scores the pairs that become complete with it. With `KnownEnds`
      and `PairsGrow`, the stages score every entry and every adjacent pair once. */
  method PlanStages(wideBeam: nat, beam: nat) returns (stages: seq<Stage>)
    ensures |stages| == 6
    ensures forall i :: 0 <= i < 6 ==> Planned(stages[i], i, wideBeam, beam)
  {
    var known: set<nat>, scored: set<nat> := {}, {};
    hide EntryStage, Entries;
    stages := [];
    KnownEnds();
    for i := 0 to 6
      invariant |stages| == i && known == Known(i) && scored == KnownPairs(i)
      invariant forall k :: 0 <= k < i ==> Planned(stages[k], k, wideBeam, beam)
    {
      var entries := Entries(ORDER[i]);
      StageEntries(i);
      PairsGrow(i);
      known := known + set j | j in entries;
      assert known == Known(i + 1);
      var pairs := NewPairs(i, known, scored);
      scored := scored + set j | j in pairs;
      stages := stages + [Stage(ORDER[i], Span(ORDER[i]), if i == 0 then wideBeam else beam, entries, pairs)];
    }
  }

  /** The pairs not scored yet whose entries are both known. */
  method NewPairs(ghost i: nat, known: set<nat>, scored: set<nat>) returns (pairs: seq<nat>)
    requires known == Known(i + 1) && scored == KnownPairs(i)
    ensures Ascending(pairs) && Elements(pairs) == KnownPairs(i + 1) - KnownPairs(i)
  {
    hide Known, KnownPairs, PairKnown;
    pairs := [];
    for j := 0 to BLOCK - 1
      invariant Ascending(pairs) && forall k :: 0 <= k < |pairs| ==> pairs[k] < j
      invariant forall x: nat :: x < j ==> (x in pairs <==> PairKnown(x, i + 1) && x !in scored)
    {
      PairIsKnown(i, j);
      if j !in scored && {j, j + 1} <= known {
        assert j in known && j + 1 in known;
        pairs := pairs + [j];
      } else {
        assert j in scored || j !in known || j + 1 !in known;
      }
    }
    PairsAre(i, pairs);
  }

  lemma PairIsKnown(i: nat, j: nat)
    requires j < 31
    ensures PairKnown(j, i + 1) <==> j in Known(i + 1) && j + 1 in Known(i + 1)
  {
    hide EntryStage;
  }

  lemma PairsAre(i: nat, pairs: seq<nat>)
    requires forall k :: 0 <= k < |pairs| ==> pairs[k] < 31
    requires forall x: nat :: x < 31 ==> (x in pairs <==> PairKnown(x, i + 1) && x !in KnownPairs(i))
    ensures Elements(pairs) == KnownPairs(i + 1) - KnownPairs(i)
  {
    hide PairKnown;
  }

  // ----- What an expansion writes

  /** The stage that fixes seed `p`, counted from 1. */
  function SeedStage(p: nat): nat {
    if p == 0 then 2 else if p <= 2 then 1 else if p == 3 then 3 else if p == 4 then 4 else if p == 5 then 6 else 5
  }

  function SeedsIn(m: Mask): Seeds {
    m[..7]
  }

  /** The key bytes the first `i` stages have fixed, with the rest still zero. */
  function Restrict(s: Seeds, i: nat): Seeds {
    seq(7, p requires 0 <= p < 7 => if SeedStage(p) <= i then s[p] else 0)
  }

  /** The seeds with the key byte of stage `i` set to `value`. */
  function WithStage(s: Seeds, i: nat, value: nat): Seeds
    requires i < 6 && value < Span(ORDER[i])
  {
    match i
    case 0 => s[1 := value / 256][2 := value % 256]
    case 1 => s[0 := value]
    case 2 => s[3 := value]
    case 3 => s[4 := value]
    case 4 => s[6 := value]
    case _ => s[5 := value]
  }

  /** The value stage `i` tries for the seeds. */
  function StageValue(s: Seeds, i: nat): (value: nat)
    requires i < 6
    ensures value < Span(ORDER[i])
  {
    match i
    case 0 => var high: int := s[1]; var low: int := s[2]; high * 256 + low
    case 1 => s[0]
    case 2 => s[3]
    case 3 => s[4]
    case 4 => s[6]
    case _ => s[5]
  }

  lemma RestrictGrows(s: Seeds, i: nat)
    requires i < 6
    ensures Restrict(s, i + 1) == WithStage(Restrict(s, i), i, StageValue(s, i))
  {}

  lemma WithStageUnique(s: Seeds, t: Seeds, i: nat, v: nat, w: nat)
    requires i < 6 && v < Span(ORDER[i]) && w < Span(ORDER[i])
    requires s == Restrict(s, i) && t == Restrict(t, i) && WithStage(s, i, v) == WithStage(t, i, w)
    ensures s == t && v == w
  {
    var u := WithStage(s, i, v);
    assert v == StageValue(u, i) && w == StageValue(WithStage(t, i, w), i);
    assert Restrict(u, i) == s && Restrict(WithStage(t, i, w), i) == t;
  }

  ghost predicate StageRules(m: Mask, i: nat)
    requires i < 6
  {
    match i
    case 0 => Rules12(m)
    case 1 => Rules0(m)
    case 2 => Rules3Low(m) && Rules3High(m)
    case 3 => Rules4(m)
    case 4 => Rules6(m)
    case _ => Rules5(m)
  }

  /** The rules of the first `i` stages hold. */
  ghost predicate RulesUpTo(m: Mask, i: nat)
    requires i <= 6
  {
    forall k :: 0 <= k < i ==> StageRules(m, k)
  }

  lemma AllRules(m: Mask)
    ensures RulesUpTo(m, 6) <==> Chained(m)
  {
    hide Rules12, Rules0, Rules3Low, Rules3High, Rules4, Rules5, Rules6;
    if RulesUpTo(m, 6) {
      assert StageRules(m, 0) && StageRules(m, 1) && StageRules(m, 2);
      assert StageRules(m, 3) && StageRules(m, 4) && StageRules(m, 5);
    }
  }

  ghost predicate AgreeUpTo(m: Mask, n: Mask, i: nat) {
    forall j: nat :: j < 32 && EntryStage(j) <= i ==> m[j] == n[j]
  }

  /** An entry known after stage `i` depends on nothing but the key bytes fixed by then. */
  lemma {:induction false} RulesDetermine(m: Mask, n: Mask, i: nat)
    requires i <= 6 && RulesUpTo(m, i) && RulesUpTo(n, i)
    requires Restrict(SeedsIn(m), i) == Restrict(SeedsIn(n), i)
    ensures AgreeUpTo(m, n, i)
  {
    hide Add, Sub, Xor;
    if i > 0 {
      SeedsAgree(m, n, i);
      SeedsAgreeEarlier(m, n, i - 1);
      RulesDetermine(m, n, i - 1);
      assert StageRules(m, i - 1) && StageRules(n, i - 1);
      StageDetermines(m, n, i - 1);
    }
  }

  lemma SeedsAgree(m: Mask, n: Mask, i: nat)
    requires Restrict(SeedsIn(m), i) == Restrict(SeedsIn(n), i)
    ensures forall p :: 0 <= p < 7 && SeedStage(p) <= i ==> m[p] == n[p]
  {
    forall p | 0 <= p < 7 && SeedStage(p) <= i ensures m[p] == n[p] {
      assert Restrict(SeedsIn(m), i)[p] == m[p] && Restrict(SeedsIn(n), i)[p] == n[p];
    }
  }

  lemma SeedsAgreeEarlier(m: Mask, n: Mask, i: nat)
    requires forall p :: 0 <= p < 7 && SeedStage(p) <= i + 1 ==> m[p] == n[p]
    ensures Restrict(SeedsIn(m), i) == Restrict(SeedsIn(n), i)
  {}

  lemma StageDetermines(m: Mask, n: Mask, i: nat)
    requires i < 6 && StageRules(m, i) && StageRules(n, i) && AgreeUpTo(m, n, i)
    requires forall p :: 0 <= p < 7 && SeedStage(p) <= i + 1 ==> m[p] == n[p]
    ensures AgreeUpTo(m, n, i + 1)
  {
    hide Add, Sub, Xor;
  }

  /** What one expansion does to a column of candidates: it writes the entries of its stage by
      their rules and nothing else. */
  ghost predicate Written(before: Mask, after: Mask, i: nat, value: nat)
    requires i < 6 && value < Span(ORDER[i])
  {
    && (forall j: nat :: j < 32 && EntryStage(j) != i + 1 ==> after[j] == before[j])
    && StageRules(after, i)
    && SeedsIn(after) == WithStage(SeedsIn(before), i, value)
  }

  /** Runs the expansion of stage `i` over one column of candidates. */
  method Expand(i: nat, m: array<Entry>, value: nat)
    requires i < 6 && m.Length == 32 && value < Span(ORDER[i])
    modifies m
    ensures Written(old(m[..]), m[..], i, value)
  {
    match ORDER[i]
    case Expand12 => WriteKeyBytes1And2(m, value);
    case Expand0 => WriteKeyByte0(m, value);
    case Expand3 => WriteKeyByte3(m, value);
    case Expand4 => WriteKeyByte4(m, value);
    case Expand6 => WriteKeyByte6(m, value);
    case Expand5 => WriteKeyByte5(m, value);
  }

  /** `expand_1_2`. */
  method WriteKeyBytes1And2(m: array<Entry>, value: nat)
    requires m.Length == 32 && value < 0x10000
    modifies m
    ensures Written(old(m[..]), m[..], 0, value)
  {
    hide Add, Sub, Xor;
    m[0x01] := value / 256;
    m[0x02] := value % 256;
    m[0x08] := Add(m[0x02], m[0x01]);
    m[0x0A] := Xor(m[0x02], 0xFF);
    m[0x0B] := Xor(m[0x01], 0xFF);
    m[0x0F] := Sub(m[0x0A], m[0x0B]);
    m[0x10] := Sub(m[0x08], m[0x0F]);
    m[0x12] := Xor(m[0x0F], 0xFF);
  }

  /** `expand_0`. */
  method WriteKeyByte0(m: array<Entry>, value: Entry)
    requires m.Length == 32
    modifies m
    ensures Written(old(m[..]), m[..], 1, value)
  {
    hide Add, Sub, Xor;
    m[0x00] := value;
    m[0x07] := Xor(m[0x00], 0xFF);
    m[0x09] := Sub(m[0x01], m[0x07]);
    m[0x0C] := Add(m[0x0B], m[0x09]);
    m[0x11] := Xor(m[0x10], m[0x07]);
  }

  /** `expand_3`. */
  method WriteKeyByte3(m: array<Entry>, value: Entry)
    requires m.Length == 32
    modifies m
    ensures Written(old(m[..]), m[..], 2, value)
  {
    hide Add, Sub, Xor;
    m[0x03] := value;
    m[0x0D] := Sub(m[0x08], m[0x03]);
    m[0x0E] := Xor(m[0x0D], 0xFF);
    m[0x13] := Xor(m[0x03], 0x10);
    m[0x17] := Sub(m[0x13], m[0x0F]);
    m[0x19] := Sub(0x21, m[0x13]);
    m[0x1C] := Add(m[0x17], 0x44);
  }

  /** `expand_4`. */
  method WriteKeyByte4(m: array<Entry>, value: Entry)
    requires m.Length == 32
    modifies m
    ensures Written(old(m[..]), m[..], 3, value)
  {
    hide Add, Sub, Xor;
    m[0x04] := value;
    m[0x14] := Sub(m[0x04], 0x32);
    m[0x1A] := Xor(m[0x14], m[0x17]);
    m[0x1D] := Add(m[0x03], m[0x04]);
    m[0x1F] := Xor(m[0x1D], m[0x13]);
  }

  /** `expand_6`. */
  method WriteKeyByte6(m: array<Entry>, value: Entry)
    requires m.Length == 32
    modifies m
    ensures Written(old(m[..]), m[..], 4, value)
  {
    hide Add, Sub, Xor;
    m[0x06] := value;
    m[0x16] := Xor(m[0x06], 0xF3);
    m[0x1B] := Add(m[0x16], m[0x16]);
  }

  /** `expand_5`. */
  method WriteKeyByte5(m: array<Entry>, value: Entry)
    requires m.Length == 32
    modifies m
    ensures Written(old(m[..]), m[..], 5, value)
  {
    hide Add, Sub, Xor;
    m[0x05] := value;
    m[0x15] := Add(m[0x05], 0xED);
    m[0x18] := Add(m[0x15], m[0x07]);
    m[0x1E] := Sub(m[0x05], m[0x16]);
  }

  /** An expansion keeps the rules of the stages before it, so a candidate obeys the rules of
      every stage it has been through. */
  lemma WrittenKeepsRules(before: Mask, after: Mask, i: nat, value: nat)
    requires i < 6 && value < Span(ORDER[i])
    requires RulesUpTo(before, i) && Written(before, after, i, value)
    ensures RulesUpTo(after, i + 1)
  {
    hide Add, Sub, Xor;
    forall k | 0 <= k < i ensures StageRules(after, k) {
      assert StageRules(before, k);
    }
  }

  lemma NoRules(m: Mask, s: Seeds)
    ensures RulesUpTo(m, 0) && forall p :: 0 <= p < 7 && SeedStage(p) <= 0 ==> m[p] == s[p]
  {}

  lemma SeedStages()
    ensures forall p: nat :: SeedStage(p) <= 6
  {}

  /** A stage that tries its value of `s` has the seeds of `s` it fixes, and keeps those before. */
  lemma WrittenFixesSeeds(m: Mask, n: Mask, i: nat, s: Seeds)
    requires i < 6 && Written(m, n, i, StageValue(s, i))
    requires forall p :: 0 <= p < 7 && SeedStage(p) <= i ==> m[p] == s[p]
    ensures forall p :: 0 <= p < 7 && SeedStage(p) <= i + 1 ==> n[p] == s[p]
  {
    hide StageRules;
    assert forall p :: 0 <= p < 7 ==> SeedsIn(n)[p] == n[p] && SeedsIn(m)[p] == m[p];
  }

  /** Feeding the expansions the key bytes of any key, from any starting column, ends at the mask
      `build_mask` makes of that key. */
  lemma ExpansionsReproduceMask(s: Seeds, steps: seq<Mask>)
    requires |steps| == 7
    requires forall i {:trigger StageValue(s, i)} :: 0 <= i < 6 ==> Written(steps[i], steps[i + 1], i, StageValue(s, i))
    ensures steps[6] == MaskOf(s)
  {
    hide Add, Sub, Xor, MaskOf, Written, RulesUpTo, SeedStage, Chained;
    NoRules(steps[0], s);
    for i := 0 to 6
      invariant RulesUpTo(steps[i], i)
      invariant forall p :: 0 <= p < 7 && SeedStage(p) <= i ==> steps[i][p] == s[p]
    {
      var m, n := steps[i], steps[i + 1];
      assert Written(m, n, i, StageValue(s, i));
      WrittenKeepsRules(m, n, i, StageValue(s, i));
      WrittenFixesSeeds(m, n, i, s);
    }
    AllRules(steps[6]);
    SeedStages();
    ClosedFormChained(s);
    MaskStartsWithSeeds(s);
    ChainDetermines(steps[6], MaskOf(s));
  }
}
