/** The beam search of stages/crack.py: `solve` over any score tables. */
module CrackSearch {
  import opened Bytes
  import opened BlockMask
  import opened CrackStages
  import opened Lists

  type Unigram = t: seq<seq<int>> | |t| == 32 && forall j :: 0 <= j < 32 ==> |t[j]| == 256
    witness seq(32, _ => seq(256, _ => 0))

  type Bigram = t: seq<seq<int>> | |t| == 31 && forall j :: 0 <= j < 31 ==> |t[j]| == 0x10000
    witness seq(31, _ => seq(0x10000, _ => 0))

  // ----- Scores

  /** `(left << 8) | right`. */
  function PairIndex(left: Entry, right: Entry): (k: nat)
    ensures k < 0x10000
  {
    var high: int := left;
    high * 256 + right
  }

  /** What each entry of a candidate scores. */
  function EntryScores(u: Unigram, m: Mask): (w: seq<int>)
    ensures |w| == 32
  {
    seq(32, j requires 0 <= j < 32 => u[j][m[j]])
  }

  /** What each adjacent pair of a candidate scores. */
  function PairScores(b: Bigram, m: Mask): (w: seq<int>)
    ensures |w| == 31
  {
    seq(31, j requires 0 <= j < 31 => b[j][PairIndex(m[j], m[j + 1])])
  }

  function Sum(w: seq<int>): int {
    if w == [] then 0 else Sum(w[..|w| - 1]) + w[|w| - 1]
  }

  /** The sum of the scores at the positions in `at`. */
  ghost function SumAt(w: seq<int>, at: set<nat>): int {
    if w == [] then 0 else SumAt(w[..|w| - 1], at) + if |w| - 1 in at then w[|w| - 1] else 0
  }

  /** The score of a whole mask: every entry and every adjacent pair, once each. */
  function Score(u: Unigram, b: Bigram, m: Mask): int {
    Sum(EntryScores(u, m)) + Sum(PairScores(b, m))
  }

  /** The score of exactly the entries and pairs known after the first `i` stages. */
  ghost function KnownScore(u: Unigram, b: Bigram, m: Mask, i: nat): int {
    SumAt(EntryScores(u, m), Known(i)) + SumAt(PairScores(b, m), KnownPairs(i))
  }

  lemma {:induction false} SumAtUnion(w: seq<int>, a: set<nat>, b: set<nat>)
    requires a !! b
    ensures SumAt(w, a + b) == SumAt(w, a) + SumAt(w, b)
  {
    if w != [] {
      SumAtUnion(w[..|w| - 1], a, b);
    }
  }

  lemma {:induction false} SumAtOne(w: seq<int>, k: nat)
    requires k < |w|
    ensures SumAt(w, {k}) == w[k]
  {
    if k == |w| - 1 {
      SumAtNone(w[..|w| - 1], {k});
    } else {
      SumAtOne(w[..|w| - 1], k);
    }
  }

  lemma {:induction false} SumAtNone(w: seq<int>, at: set<nat>)
    requires forall k :: k in at ==> k >= |w|
    ensures SumAt(w, at) == 0
  {
    if w != [] {
      SumAtNone(w[..|w| - 1], at);
    }
  }

  lemma {:induction false} SumAtAll(w: seq<int>, at: set<nat>)
    requires forall k: nat :: k < |w| ==> k in at
    ensures SumAt(w, at) == Sum(w)
  {
    if w != [] {
      SumAtAll(w[..|w| - 1], at);
    }
  }

  lemma {:induction false} SumAtSame(w: seq<int>, v: seq<int>, at: set<nat>)
    requires |w| == |v| && forall k: nat :: k < |w| && k in at ==> w[k] == v[k]
    ensures SumAt(w, at) == SumAt(v, at)
  {
    if w != [] {
      assert forall k :: 0 <= k < |w| - 1 ==> w[..|w| - 1][k] == w[k] && v[..|w| - 1][k] == v[k];
      SumAtSame(w[..|w| - 1], v[..|v| - 1], at);
    }
  }

  /** After the last stage the score is the score of the whole mask. */
  lemma KnownScoreComplete(u: Unigram, b: Bigram, m: Mask)
    ensures KnownScore(u, b, m, 6) == Score(u, b, m)
  {
    KnownEnds();
    SumAtAll(EntryScores(u, m), Known(6));
    SumAtAll(PairScores(b, m), KnownPairs(6));
  }

  /** Candidates that agree on what is known score alike. */
  lemma KnownScoreAgrees(u: Unigram, b: Bigram, m: Mask, n: Mask, i: nat)
    requires AgreeUpTo(m, n, i)
    ensures KnownScore(u, b, m, i) == KnownScore(u, b, n, i)
  {
    SumAtSame(EntryScores(u, m), EntryScores(u, n), Known(i));
    SumAtSame(PairScores(b, m), PairScores(b, n), KnownPairs(i));
  }

  /** Adds up the scores at the listed positions, one after the other. */
  method AddScores(start: int, w: seq<int>, list: seq<nat>) returns (total: int)
    requires Ascending(list) && forall k :: 0 <= k < |list| ==> list[k] < |w|
    ensures total == start + SumAt(w, Elements(list))
  {
    total := start;
    assert list[..0] == [];
    SumAtNone(w, Elements(list[..0]));
    for k := 0 to |list|
      invariant total == start + SumAt(w, Elements(list[..k]))
    {
      assert Elements(list[..k + 1]) == Elements(list[..k]) + {list[k]};
      SumAtUnion(w, Elements(list[..k]), {list[k]});
      SumAtOne(w, list[k]);
      total := total + w[list[k]];
    }
    assert list[..|list|] == list;
  }

  // ----- The beam

  /** `np.argpartition(-total, width - 1)[:width]`: some `width` distinct positions, none of
      which scores below a position left out. Ties may fall either way. */
  method KeepBest(total: seq<int>, width: nat) returns (keep: seq<nat>)
    requires width <= |total|
    ensures |keep| == width
    ensures forall k :: 0 <= k < width ==> keep[k] < |total|
    ensures forall k, l :: 0 <= k < l < width ==> keep[k] != keep[l]
    ensures forall k, x :: 0 <= k < width && 0 <= x < |total| && x !in keep ==> total[x] <= total[keep[k]]
  {
    keep := [];
    for n := 0 to width
      invariant |keep| == n
      invariant forall k :: 0 <= k < n ==> keep[k] < |total|
      invariant forall k, l :: 0 <= k < l < n ==> keep[k] != keep[l]
      invariant forall k, x :: 0 <= k < n && 0 <= x < |total| && x !in keep ==> total[x] <= total[keep[k]]
    {
      var best := Unused(keep, |total|);
      for x := 0 to |total|
        invariant 0 <= best < |total| && best !in keep
        invariant forall y :: 0 <= y < x && y !in keep ==> total[y] <= total[best]
      {
        if x !in keep && total[x] > total[best] {
          best := x;
        }
      }
      keep := keep + [best as nat];
    }
  }

  method Unused(keep: seq<nat>, size: nat) returns (x: nat)
    requires |keep| < size
    requires forall k :: 0 <= k < |keep| ==> keep[k] < size
    ensures x < size && x !in keep
  {
    x := 0;
    while x in keep
      invariant x <= size && forall y: nat :: y < x ==> y in keep
      decreases size - x
    {
      if x + 1 == size {
        CoveringIsLong(keep, size);
      }
      x := x + 1;
    }
    if x == size {
      CoveringIsLong(keep, size);
    }
  }

  /** The candidates after `i` stages: distinct partial masks that obey the rules so far, each
      with the score of exactly what is known. */
  ghost predicate IsBeam(u: Unigram, b: Bigram, i: nat, masks: seq<Mask>, scores: seq<int>)
    requires i <= 6
  {
    && |masks| == |scores|
    && (forall c :: 0 <= c < |masks| ==>
          && RulesUpTo(masks[c], i)
          && SeedsIn(masks[c]) == Restrict(SeedsIn(masks[c]), i)
          && scores[c] == KnownScore(u, b, masks[c], i))
    && (forall c, d :: 0 <= c < d < |masks| ==> SeedsIn(masks[c]) != SeedsIn(masks[d]))
  }

  /** Some candidate has the key bytes of `s` that are fixed so far. */
  ghost predicate Holds(masks: seq<Mask>, s: Seeds, i: nat) {
    exists c :: 0 <= c < |masks| && SeedsIn(masks[c]) == Restrict(s, i)
  }

  /** At least `beam` other partial keys score as well as that of `s` at stage `i`. */
  ghost predicate Crowded(u: Unigram, b: Bigram, s: Seeds, i: nat, beam: nat) {
    exists rivals: set<Seeds> :: |rivals| == beam && forall t :: t in rivals ==> Rival(u, b, s, t, i)
  }

  ghost predicate Rival(u: Unigram, b: Bigram, s: Seeds, t: Seeds, i: nat) {
    && t == Restrict(t, i) && t != Restrict(s, i)
    && KnownScore(u, b, MaskOf(t), i) >= KnownScore(u, b, MaskOf(s), i)
  }

  /** A candidate scores what the mask of any key with its key bytes scores. */
  lemma BeamScore(u: Unigram, b: Bigram, m: Mask, s: Seeds, i: nat)
    requires i <= 6 && RulesUpTo(m, i) && SeedsIn(m) == Restrict(SeedsIn(m), i) == Restrict(s, i)
    ensures KnownScore(u, b, m, i) == KnownScore(u, b, MaskOf(s), i)
  {
    hide MaskOf, KnownScore, Rules12, Rules0, Rules3Low, Rules3High, Rules4, Rules5, Rules6;
    ClosedFormChained(s);
    AllRules(MaskOf(s));
    MaskStartsWithSeeds(s);
    assert SeedsIn(MaskOf(s)) == s;
    RulesDetermine(m, MaskOf(s), i);
    KnownScoreAgrees(u, b, m, MaskOf(s), i);
  }

  // ----- One stage

  /** One candidate under one value of the stage. */
  method ExpandOne(u: Unigram, b: Bigram, stage: Stage, i: nat, wideBeam: nat, beam: nat,
                   mask: Mask, score: int, value: nat)
    returns (m: Mask, total: int)
    requires i < 6 && Planned(stage, i, wideBeam, beam) && value < Span(ORDER[i])
    requires RulesUpTo(mask, i) && score == KnownScore(u, b, mask, i)
    ensures SeedsIn(m) == WithStage(SeedsIn(mask), i, value) && RulesUpTo(m, i + 1)
    ensures total == KnownScore(u, b, m, i + 1)
  {
    hide Rules12, Rules0, Rules3Low, Rules3High, Rules4, Rules5, Rules6, Entries;
    var column := new Entry[32](j requires 0 <= j < 32 => mask[j]);
    assert column[..] == mask;
    Expand(i, column, value);
    m := column[..];
    WrittenKeepsRules(mask, m, i, value);
    KnownScoreAgrees(u, b, mask, m, i);
    StageEntries(i);
    EntriesAscending(ORDER[i]);
    PairsGrow(i);
    assert forall k :: 0 <= k < |stage.entries| ==> stage.entries[k] in Elements(stage.entries);
    assert forall k :: 0 <= k < |stage.pairs| ==> stage.pairs[k] in Elements(stage.pairs);
    total := AddScores(score, EntryScores(u, m), stage.entries);
    total := AddScores(total, PairScores(b, m), stage.pairs);
    SumAtUnion(EntryScores(u, m), Known(i), Elements(stage.entries));
    SumAtUnion(PairScores(b, m), KnownPairs(i), Elements(stage.pairs));
    assert KnownPairs(i) + Elements(stage.pairs) == KnownPairs(i + 1);
    assert Known(i) + Elements(stage.entries) == Known(i + 1);
  }

  lemma BeamGrows(u: Unigram, b: Bigram, i: nat, span: nat, masks: seq<Mask>, scores: seq<int>,
                  candidates: seq<Mask>, total: seq<int>)
    requires i < 6 && span == Span(ORDER[i]) && IsBeam(u, b, i, masks, scores)
    requires |candidates| == |total| == |masks| * span
    requires forall x :: 0 <= x < |candidates| ==> x / span < |masks|
    requires forall x :: 0 <= x < |candidates| ==>
      && RulesUpTo(candidates[x], i + 1)
      && SeedsIn(candidates[x]) == WithStage(SeedsIn(masks[x / span]), i, x % span)
      && total[x] == KnownScore(u, b, candidates[x], i + 1)
    ensures IsBeam(u, b, i + 1, candidates, total)
  {
    hide RulesUpTo, KnownScore;
    forall x | 0 <= x < |candidates| ensures SeedsIn(candidates[x]) == Restrict(SeedsIn(candidates[x]), i + 1) {
      WithStageRestricted(SeedsIn(masks[x / span]), i, x % span);
    }
    forall x, y | 0 <= x < y < |candidates| ensures SeedsIn(candidates[x]) != SeedsIn(candidates[y]) {
      assert x == span * (x / span) + x % span && y == span * (y / span) + y % span;
      var c, d := x / span, y / span;
      assert c < d ==> SeedsIn(masks[c]) != SeedsIn(masks[d]);
      WithStageInjective(SeedsIn(masks[c]), SeedsIn(masks[d]), i, x % span, y % span);
    }
  }

  lemma WithStageInjective(s: Seeds, t: Seeds, i: nat, v: nat, w: nat)
    requires i < 6 && v < Span(ORDER[i]) && w < Span(ORDER[i])
    requires s == Restrict(s, i) && t == Restrict(t, i) && (s != t || v != w)
    ensures WithStage(s, i, v) != WithStage(t, i, w)
  {
    if WithStage(s, i, v) == WithStage(t, i, w) {
      WithStageUnique(s, t, i, v, w);
    }
  }

  lemma WithStageRestricted(s: Seeds, i: nat, v: nat)
    requires i < 6 && v < Span(ORDER[i]) && s == Restrict(s, i)
    ensures WithStage(s, i, v) == Restrict(WithStage(s, i, v), i + 1)
  {}

  /** Every candidate under every value of the stage, scored. Column `k` comes from candidate
      `k / span` under value `k % span`. */
  method ExpandAll(u: Unigram, b: Bigram, stage: Stage, i: nat, wideBeam: nat, beam: nat,
                   masks: seq<Mask>, scores: seq<int>)
    returns (candidates: seq<Mask>, total: seq<int>)
    requires i < 6 && Planned(stage, i, wideBeam, beam) && IsBeam(u, b, i, masks, scores)
    ensures |candidates| == |masks| * stage.span && IsBeam(u, b, i + 1, candidates, total)
    ensures forall s :: Holds(masks, s, i) ==> Holds(candidates, s, i + 1)
  {
    hide RulesUpTo, KnownScore, WithStage, Restrict, Planned, Written;
    candidates, total := [], [];
    var span := stage.span;
    assert span == Span(ORDER[i]) by {
      PlannedSpan(stage, i, wideBeam, beam);
    }
    for k := 0 to |masks| * span
      invariant |candidates| == |total| == k
      invariant forall x :: 0 <= x < k ==> x / span < |masks|
      invariant forall x :: 0 <= x < k ==>
        && RulesUpTo(candidates[x], i + 1)
        && SeedsIn(candidates[x]) == WithStage(SeedsIn(masks[x / span]), i, x % span)
        && total[x] == KnownScore(u, b, candidates[x], i + 1)
    {
      ColumnInRange(k, span, |masks|);
      var m, score := ExpandOne(u, b, stage, i, wideBeam, beam, masks[k / span], scores[k / span], k % span);
      candidates, total := candidates + [m], total + [score];
    }
    BeamGrows(u, b, i, span, masks, scores, candidates, total);
    forall s | Holds(masks, s, i) ensures Holds(candidates, s, i + 1) {
      HoldsGrows(s, i, span, masks, candidates);
    }
  }

  lemma PlannedSpan(stage: Stage, i: nat, wideBeam: nat, beam: nat)
    requires i < 6 && Planned(stage, i, wideBeam, beam)
    ensures stage.span == Span(ORDER[i])
  {}

  lemma HoldsGrows(s: Seeds, i: nat, span: nat, masks: seq<Mask>, candidates: seq<Mask>)
    requires i < 6 && span == Span(ORDER[i]) && Holds(masks, s, i)
    requires |candidates| == |masks| * span
    requires forall x :: 0 <= x < |candidates| ==> x / span < |masks|
    requires forall x :: 0 <= x < |candidates| ==>
      SeedsIn(candidates[x]) == WithStage(SeedsIn(masks[x / span]), i, x % span)
    ensures Holds(candidates, s, i + 1)
  {
    var c :| 0 <= c < |masks| && SeedsIn(masks[c]) == Restrict(s, i);
    var v := StageValue(s, i);
    RestrictGrows(s, i);
    ColumnOf(c, v, span, |masks|);
    assert SeedsIn(candidates[c * span + v]) == Restrict(s, i + 1);
  }

  lemma ColumnInRange(k: nat, span: nat, count: nat)
    requires span > 0 && k < count * span
    ensures k / span < count
  {
    var q := k / span;
    assert k == span * q + k % span;
    assert span * (q - count + 1) == span * q - span * count + span;
    ProductGrows(span, q - count + 1);
  }

  lemma ColumnOf(c: nat, v: nat, span: nat, count: nat)
    requires c < count && v < span
    ensures c * span + v < count * span && (c * span + v) / span == c && (c * span + v) % span == v
  {
    var rest: nat := count - c - 1;
    Distributed(c + 1, rest, span);
    Distributed(c, 1, span);
    DivisionUnique(c * span + v, span, c, v);
  }

  lemma Distributed(a: nat, b: nat, span: nat)
    ensures (a + b) * span == a * span + b * span && b * span >= 0
  {}

  /** One stage of `solve`. Nothing kept scores below anything discarded, and a partial key is
      lost only where the beam is full of rivals that score as well. */
  method RunStage(u: Unigram, b: Bigram, stage: Stage, i: nat, wideBeam: nat, beam: nat,
                  masks: seq<Mask>, scores: seq<int>)
    returns (masks': seq<Mask>, scores': seq<int>)
    requires i < 6 && Planned(stage, i, wideBeam, beam) && IsBeam(u, b, i, masks, scores)
    requires |masks| > 0 && stage.beam > 0
    ensures IsBeam(u, b, i + 1, masks', scores') && 0 < |masks'| <= stage.beam
    ensures |masks'| <= |masks| * Span(ORDER[i])
    ensures forall s :: Holds(masks, s, i) && !Holds(masks', s, i + 1) ==>
      && Crowded(u, b, s, i + 1, stage.beam)
      && forall c :: 0 <= c < |masks'| ==> KnownScore(u, b, MaskOf(s), i + 1) <= scores'[c]
    ensures forall s :: Holds(masks, s, i) && |masks| * Span(ORDER[i]) <= stage.beam ==> Holds(masks', s, i + 1)
  {
    hide RulesUpTo, KnownScore, MaskOf, Restrict, Planned;
    PlannedSpan(stage, i, wideBeam, beam);
    var candidates, total := ExpandAll(u, b, stage, i, wideBeam, beam, masks, scores);
    ProductGrows(stage.span, |masks|);
    var width := if stage.beam < |total| then stage.beam else |total|;
    var keep := KeepBest(total, width);
    masks' := seq(width, k requires 0 <= k < width => candidates[keep[k]]);
    scores' := seq(width, k requires 0 <= k < width => total[keep[k]]);
    KeptIsBeam(u, b, i + 1, candidates, total, keep, masks', scores');
    forall s | Holds(masks, s, i) && !Holds(masks', s, i + 1)
      ensures width == stage.beam < |total| && Crowded(u, b, s, i + 1, stage.beam)
      ensures forall c :: 0 <= c < |masks'| ==> KnownScore(u, b, MaskOf(s), i + 1) <= scores'[c]
    {
      LostToRivals(u, b, i + 1, candidates, total, keep, masks', scores', s);
      var x: nat :| x < |total| && x !in keep;
      DistinctFits(keep + [x], |total|);
    }
  }

  lemma KeptIsBeam(u: Unigram, b: Bigram, i: nat, candidates: seq<Mask>, total: seq<int>, keep: seq<nat>,
                   masks: seq<Mask>, scores: seq<int>)
    requires i <= 6 && IsBeam(u, b, i, candidates, total) && |masks| == |scores| == |keep|
    requires forall k :: 0 <= k < |keep| ==>
      keep[k] < |total| && masks[k] == candidates[keep[k]] && scores[k] == total[keep[k]]
    requires forall k, l :: 0 <= k < l < |keep| ==> keep[k] != keep[l]
    ensures IsBeam(u, b, i, masks, scores)
  {
    hide RulesUpTo, KnownScore;
    forall c, d | 0 <= c < d < |masks| ensures SeedsIn(masks[c]) != SeedsIn(masks[d]) {
      var x, y := keep[c], keep[d];
      assert x < y || y < x;
    }
  }

  lemma LostToRivals(u: Unigram, b: Bigram, i: nat, candidates: seq<Mask>, total: seq<int>, keep: seq<nat>,
                     masks: seq<Mask>, scores: seq<int>, s: Seeds)
    requires i <= 6 && IsBeam(u, b, i, candidates, total) && IsBeam(u, b, i, masks, scores)
    requires |masks| == |keep|
    requires forall k :: 0 <= k < |keep| ==>
      keep[k] < |total| && masks[k] == candidates[keep[k]] && scores[k] == total[keep[k]]
    requires forall k, x :: 0 <= k < |keep| && 0 <= x < |total| && x !in keep ==> total[x] <= total[keep[k]]
    requires Holds(candidates, s, i) && !Holds(masks, s, i)
    ensures exists x: nat :: x < |total| && x !in keep
    ensures Crowded(u, b, s, i, |keep|)
    ensures forall c :: 0 <= c < |masks| ==> KnownScore(u, b, MaskOf(s), i) <= scores[c]
  {
    hide RulesUpTo, KnownScore, MaskOf, Restrict;
    var x :| 0 <= x < |candidates| && SeedsIn(candidates[x]) == Restrict(s, i);
    forall k | 0 <= k < |keep| ensures keep[k] != x {
      assert SeedsIn(masks[k]) == SeedsIn(candidates[keep[k]]);
    }
    BeamScore(u, b, candidates[x], s, i);
    assert x !in keep;
    KeptAreRivals(u, b, i, masks, scores, s, total[x]);
  }

  /** A beam without a partial key, all of whose candidates score at least as well, is rivals of it. */
  lemma KeptAreRivals(u: Unigram, b: Bigram, i: nat, masks: seq<Mask>, scores: seq<int>, s: Seeds, score: int)
    requires i <= 6 && IsBeam(u, b, i, masks, scores) && !Holds(masks, s, i)
    requires score == KnownScore(u, b, MaskOf(s), i) && forall c :: 0 <= c < |masks| ==> score <= scores[c]
    ensures Crowded(u, b, s, i, |masks|)
  {
    hide RulesUpTo, KnownScore, MaskOf, Restrict;
    var kept := seq(|masks|, c requires 0 <= c < |masks| => SeedsIn(masks[c]));
    DistinctCount(kept);
    var rivals := set t | t in kept;
    forall t | t in rivals ensures Rival(u, b, s, t, i) {
      var c :| 0 <= c < |masks| && SeedsIn(masks[c]) == t;
      BeamScore(u, b, masks[c], t, i);
    }
    assert |rivals| == |masks|;
  }

  // ----- The whole search

  /** No stage has a full beam of other partial keys that score as well as this key's. */
  ghost predicate Uncrowded(u: Unigram, b: Bigram, s: Seeds, wideBeam: nat, beam: nat) {
    forall i :: 1 <= i <= 6 ==> !Crowded(u, b, s, i, BeamAt(i, wideBeam, beam))
  }

  /** The beam of the stage that makes `i` stages done. */
  function BeamAt(i: nat, wideBeam: nat, beam: nat): nat {
    if i == 1 then wideBeam else beam
  }

  /** How many candidates stage `i` can have when nothing is discarded. */
  function Columns(i: nat): nat {
    if i == 0 then 1 else if i == 1 then 0x10000 else 0x100 * Columns(i - 1)
  }

  /** `solve`, with the two beam widths as parameters. The result is the mask of a key; it scores
      at least as well as every key no stage crowds out; and with beams wide enough for all
      candidates it maximises the score over all 2^56 keys. */
  method Solve(u: Unigram, b: Bigram, wideBeam: nat, beam: nat) returns (mask: Mask)
    requires wideBeam > 0 && beam > 0
    ensures mask == MaskOf(SeedsOf(KeyFromMask(mask)))
    ensures forall s :: Uncrowded(u, b, s, wideBeam, beam) ==> Score(u, b, MaskOf(s)) <= Score(u, b, mask)
    ensures wideBeam >= 0x10000 && beam >= KEY_SPACE ==>
      forall s :: Score(u, b, MaskOf(s)) <= Score(u, b, mask)
  {
    hide RulesUpTo, KnownScore, MaskOf, Restrict, Planned, Score, Crowded, KeyFromMask;
    var stages := PlanStages(wideBeam, beam);
    var masks: seq<Mask>, scores := [seq(32, _ => 0)], [0];
    StartIsBeam(u, b, masks, scores);
    ghost var wide := wideBeam >= 0x10000 && beam >= KEY_SPACE;
    for i := 0 to 6
      invariant IsBeam(u, b, i, masks, scores) && 0 < |masks| <= Columns(i)
      invariant forall s :: Uncrowded(u, b, s, wideBeam, beam) || wide ==> Holds(masks, s, i)
    {
      PlannedBeam(stages[i], i, wideBeam, beam);
      ColumnsGrow(i, |masks|);
      masks, scores := RunStage(u, b, stages[i], i, wideBeam, beam, masks, scores);
    }
    var best := 0;
    for c := 0 to |scores|
      invariant 0 <= best < |scores|
      invariant forall d :: 0 <= d < c ==> scores[d] <= scores[best]
    {
      if scores[c] > scores[best] {
        best := c;
      }
    }
    mask := masks[best];
    BeamIsComplete(u, b, masks, scores, best);
    forall s | Holds(masks, s, 6) ensures Score(u, b, MaskOf(s)) <= Score(u, b, mask) {
      var c :| 0 <= c < |masks| && SeedsIn(masks[c]) == Restrict(s, 6);
      BeamScore(u, b, masks[c], s, 6);
      KnownScoreComplete(u, b, MaskOf(s));
    }
  }

  lemma StartIsBeam(u: Unigram, b: Bigram, masks: seq<Mask>, scores: seq<int>)
    requires |masks| == 1 && masks[0] == seq(32, _ => 0) && scores == [0]
    ensures IsBeam(u, b, 0, masks, scores) && forall s :: Holds(masks, s, 0)
  {
    KnownEnds();
    SumAtNone(EntryScores(u, masks[0]), {});
    SumAtNone(PairScores(b, masks[0]), {});
    forall s: Seeds ensures Holds(masks, s, 0) {
      assert SeedsIn(masks[0]) == Restrict(s, 0);
    }
  }

  lemma PlannedBeam(stage: Stage, i: nat, wideBeam: nat, beam: nat)
    requires i < 6 && Planned(stage, i, wideBeam, beam)
    ensures stage.beam == BeamAt(i + 1, wideBeam, beam)
  {}

  lemma ColumnsGrow(i: nat, count: nat)
    requires i < 6 && count <= Columns(i)
    ensures count * Span(ORDER[i]) <= Columns(i + 1)
    ensures Columns(i + 1) <= if i == 0 then 0x10000 else KEY_SPACE
  {
    assert Columns(2) == 0x100_0000 && Columns(3) == 0x1_0000_0000;
    assert Columns(4) == 0x100_0000_0000 && Columns(5) == 0x1_0000_0000_0000;
  }

  lemma BeamIsComplete(u: Unigram, b: Bigram, masks: seq<Mask>, scores: seq<int>, c: nat)
    requires IsBeam(u, b, 6, masks, scores) && c < |masks|
    ensures masks[c] == MaskOf(SeedsOf(KeyFromMask(masks[c]))) && scores[c] == Score(u, b, masks[c])
  {
    hide KnownScore, MaskOf;
    AllRules(masks[c]);
    MaskIffChained(masks[c]);
    KnownScoreComplete(u, b, masks[c]);
  }
}
