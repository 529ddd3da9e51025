/** The key search of capture/proto.py: `find_keys` over nested protobuf messages. */
module FindKeys {
  import opened Bytes
  import opened Proto

  datatype FoundKey = FoundKey(number: nat, aesKey: Option<seq<byte>>, parentQuest: Option<nat>)

  // ----- The shapes of strings

  predicate IsDigit(b: byte) {
    0x30 <= b <= 0x39
  }

  predicate IsHexDigit(b: byte) {
    IsDigit(b) || 0x61 <= b <= 0x66 || 0x41 <= b <= 0x46
  }

  /** `[0-9a-fA-F]{32}`, in full. */
  predicate IsHexKey(s: seq<byte>) {
    |s| == 32 && forall i :: 0 <= i < |s| ==> IsHexDigit(s[i])
  }

  /** `[0-9]{1,20}`, in full. */
  predicate IsDecimal(s: seq<byte>) {
    1 <= |s| <= 20 && AllDigits(s)
  }

  predicate AllDigits(s: seq<byte>) {
    forall i :: 0 <= i < |s| ==> IsDigit(s[i])
  }

  /** `[0-9]{8}`, anywhere. */
  ghost predicate HasDigitRun(data: seq<byte>) {
    exists i :: RunAt(data, i)
  }

  predicate RunAt(data: seq<byte>, i: int) {
    0 <= i <= |data| - 8 && AllDigits(data[i..i + 8])
  }

  function DigitValue(b: byte): nat
    requires IsDigit(b)
  {
    (b - 0x30) as int
  }

  /** `int` of a decimal string. */
  function Decimal(s: seq<byte>): nat
    requires AllDigits(s)
  {
    if s == [] then 0 else 10 * Decimal(s[..|s| - 1]) + DigitValue(s[|s| - 1])
  }

  function LowerByte(b: byte): byte {
    if 0x41 <= b <= 0x5A then b + 0x20 else b
  }

  function Lower(s: seq<byte>): seq<byte> {
    seq(|s|, i requires 0 <= i < |s| => LowerByte(s[i]))
  }

  // ----- The strings of one message

  function Hexes(strings: seq<seq<byte>>): seq<seq<byte>> {
    if strings == [] then []
    else
      var last := strings[|strings| - 1];
      Hexes(strings[..|strings| - 1]) + if IsHexKey(last) then [last] else []
  }

  /** The decimal strings below 2^64, as numbers. */
  function Numbers(strings: seq<seq<byte>>): seq<nat> {
    if strings == [] then []
    else
      var last := strings[|strings| - 1];
      Numbers(strings[..|strings| - 1])
      + if !IsHexKey(last) && IsDecimal(last) && Decimal(last) < 0x1_0000_0000_0000_0000 then [Decimal(last)] else []
  }

  /** The strings that are neither, which may be messages. */
  function Nested(strings: seq<seq<byte>>): seq<seq<byte>> {
    if strings == [] then []
    else
      var last := strings[|strings| - 1];
      Nested(strings[..|strings| - 1]) + if !IsHexKey(last) && !IsDecimal(last) then [last] else []
  }

  function Values(varints: seq<(nat, nat)>): set<nat> {
    set k | 0 <= k < |varints| :: varints[k].1
  }

  /** Every number in the nested messages. */
  function Children(nested: seq<seq<byte>>): set<nat> {
    if nested == [] then {} else Children(nested[..|nested| - 1]) + Values(VarintsOf(nested[|nested| - 1]))
  }

  /** The numbers a record holds that the ids of its nested messages derive from. */
  function Parents(record: seq<(nat, nat)>, nested: seq<seq<byte>>): set<nat> {
    (set c | c in Children(nested) :: c / 100) * Values(record)
  }

  /** `parent_quest`: the one such number, if there is only one. */
  ghost function ParentQuest(record: seq<(nat, nat)>, nested: seq<seq<byte>>): Option<nat> {
    if p :| Parents(record, nested) == {p} then Some(p) else None
  }

  /** The key a message holds itself, nested messages aside. */
  ghost function OwnKeys(data: seq<byte>): seq<FoundKey> {
    var strings := StringsOf(data);
    var numbers, hexes := Numbers(strings), Hexes(strings);
    if |numbers| == 1 && numbers[0] >= 10_000_000 && |hexes| <= 1 then
      var aesKey := if hexes == [] then None else Some(Lower(hexes[0]));
      var quest := ParentQuest(VarintsOf(data), Nested(strings));
      if aesKey.Some? || quest.Some? then [FoundKey(numbers[0], aesKey, quest)] else []
    else []
  }

  // ----- The recursion is over shorter and shorter parts of the message

  ghost predicate PartOf(part: seq<byte>, data: seq<byte>) {
    exists i, j :: 0 <= i <= j <= |data| && part == data[i..j]
  }

  lemma PartOfSuffix(part: seq<byte>, data: seq<byte>, from: nat)
    requires from <= |data| && PartOf(part, data[from..])
    ensures PartOf(part, data)
  {
    var i, j :| 0 <= i <= j <= |data[from..]| && part == data[from..][i..j];
    assert data[from..][i..j] == data[from + i..from + j];
  }

  lemma FieldDataIsPart(data: seq<byte>)
    requires FieldIn(data).Some? && FieldIn(data).value.0.BytesField?
    ensures |FieldIn(data).value.0.data| < |data| && PartOf(FieldIn(data).value.0.data, data)
  {
    hide VarintIn, FieldBody, PartOf;
    var (tag, length) := VarintIn(data, MAX_VARINT).value;
    BodyDataIsPart(tag / 8, tag % 8, length, data[length..]);
    PartOfSuffix(FieldIn(data).value.0.data, data, length);
  }

  lemma BodyDataIsPart(number: nat, wire: nat, length: nat, after: seq<byte>)
    requires length > 0 && FieldBody(number, wire, length, after).Some?
    requires FieldBody(number, wire, length, after).value.0.BytesField?
    ensures var part := FieldBody(number, wire, length, after).value.0.data;
      |part| <= |after| && PartOf(part, after)
  {
    hide VarintIn;
    var (size, n) := VarintIn(after, MAX_VARINT).value;
    assert PartOf(after[n..n + size], after);
  }

  /** Every string of a message is a strictly shorter part of it. */
  lemma {:induction false} StringsAreParts(data: seq<byte>, s: seq<byte>)
    requires s in StringsOf(data)
    ensures |s| < |data| && PartOf(s, data)
    decreases |data|
  {
    hide FieldIn;
    if data != [] {
      var (field, length) := FieldIn(data).value;
      var rest := FieldsIn(data[length..]).value;
      ListsConcat([field], rest);
      assert [field][..0] == [];
      if s in Strings(rest) {
        StringsAreParts(data[length..], s);
        PartOfSuffix(s, data, length);
      } else {
        FieldDataIsPart(data);
      }
    }
  }

  lemma {:induction false} NestedAreStrings(strings: seq<seq<byte>>, s: seq<byte>)
    requires s in Nested(strings)
    ensures s in strings
  {
    if s in Nested(strings[..|strings| - 1]) {
      NestedAreStrings(strings[..|strings| - 1], s);
    }
  }

  ghost predicate AllShorter(values: seq<seq<byte>>, limit: nat) {
    forall k :: 0 <= k < |values| ==> |values[k]| < limit
  }

  lemma NestedAreShorter(data: seq<byte>)
    ensures AllShorter(Nested(StringsOf(data)), |data|)
  {
    var nested := Nested(StringsOf(data));
    forall k | 0 <= k < |nested| ensures |nested[k]| < |data| {
      NestedAreStrings(StringsOf(data), nested[k]);
      StringsAreParts(data, nested[k]);
    }
  }

  // ----- The search

  /** `find_keys`: nothing without eight digits in a row; else the message's own key and then those
      of the nested messages. */
  ghost function Find(data: seq<byte>): seq<FoundKey>
    decreases |data|, 1, 0
  {
    NestedAreShorter(data);
    if !HasDigitRun(data) then [] else OwnKeys(data) + FindAll(Nested(StringsOf(data)), |data|)
  }

  ghost function FindAll(values: seq<seq<byte>>, limit: nat): seq<FoundKey>
    requires AllShorter(values, limit)
    decreases limit, 0, |values|
  {
    if values == [] then [] else FindAll(values[..|values| - 1], limit) + Find(values[|values| - 1])
  }

  /** The same search without the eight-digit test. */
  ghost function FindUnpruned(data: seq<byte>): seq<FoundKey>
    decreases |data|, 1, 0
  {
    NestedAreShorter(data);
    OwnKeys(data) + FindAllUnpruned(Nested(StringsOf(data)), |data|)
  }

  ghost function FindAllUnpruned(values: seq<seq<byte>>, limit: nat): seq<FoundKey>
    requires AllShorter(values, limit)
    decreases limit, 0, |values|
  {
    if values == [] then [] else FindAllUnpruned(values[..|values| - 1], limit) + FindUnpruned(values[|values| - 1])
  }

  lemma {:induction false} DecimalBound(s: seq<byte>)
    requires AllDigits(s) && |s| <= 7
    ensures Decimal(s) < Pow10(|s|)
  {
    if s != [] {
      DecimalBound(s[..|s| - 1]);
      DigitBelowTen(s[|s| - 1]);
    }
  }

  function Pow10(n: nat): nat {
    if n == 0 then 1 else 10 * Pow10(n - 1)
  }

  lemma DigitBelowTen(b: byte)
    requires IsDigit(b)
    ensures DigitValue(b) < 10
  {}

  /** A number of eight digits or more comes from eight digits in a row. */
  lemma LongDecimalHasRun(s: seq<byte>, data: seq<byte>)
    requires AllDigits(s) && Decimal(s) >= 10_000_000 && PartOf(s, data)
    ensures HasDigitRun(data)
  {
    if |s| <= 7 {
      DecimalBound(s);
      Pow10Grows(|s|);
    } else {
      var i, j :| 0 <= i <= j <= |data| && s == data[i..j];
      assert data[i..i + 8] == s[..8];
      assert RunAt(data, i);
    }
  }

  lemma Pow10Grows(n: nat)
    requires n <= 7
    ensures Pow10(n) <= 10_000_000
  {
    assert Pow10(2) == 100 && Pow10(4) == 10_000 && Pow10(6) == 1_000_000;
  }

  lemma SliceOfSlice(s: seq<byte>, i: nat, j: nat, k: nat, l: nat)
    requires i <= j <= |s| && k <= l <= j - i
    ensures s[i..j][k..l] == s[i + k..i + l]
  {
    var a, b := s[i..j][k..l], s[i + k..i + l];
    assert |a| == |b| && forall x :: 0 <= x < |a| ==> a[x] == s[i + k + x] == b[x];
  }

  lemma RunInPart(part: seq<byte>, data: seq<byte>)
    requires PartOf(part, data) && HasDigitRun(part)
    ensures HasDigitRun(data)
  {
    var i, j :| 0 <= i <= j <= |data| && part == data[i..j];
    var k :| RunAt(part, k);
    SliceOfSlice(data, i, j, k, k + 8);
    assert RunAt(data, i + k);
  }

  lemma {:induction false} NumbersAreStrings(strings: seq<seq<byte>>, n: nat) returns (s: seq<byte>)
    requires n in Numbers(strings)
    ensures s in strings && AllDigits(s) && Decimal(s) == n
  {
    var front := strings[..|strings| - 1];
    if n in Numbers(front) {
      s := NumbersAreStrings(front, n);
    } else {
      s := strings[|strings| - 1];
    }
  }

  lemma OwnKeysHaveRun(data: seq<byte>)
    requires OwnKeys(data) != []
    ensures HasDigitRun(data)
  {
    var numbers := Numbers(StringsOf(data));
    assert numbers[0] in numbers;
    var s := NumbersAreStrings(StringsOf(data), numbers[0]);
    StringsAreParts(data, s);
    LongDecimalHasRun(s, data);
  }

  /** At any nesting depth, a message without eight digits in a row holds no key. */
  lemma {:induction false} NoRunNoKeys(data: seq<byte>)
    requires !HasDigitRun(data)
    ensures FindUnpruned(data) == []
    decreases |data|, 1, 0
  {
    hide OwnKeys, HasDigitRun;
    if OwnKeys(data) != [] {
      OwnKeysHaveRun(data);
    }
    NestedAreShorter(data);
    var nested := Nested(StringsOf(data));
    forall k | 0 <= k < |nested| ensures !HasDigitRun(nested[k]) {
      NestedAreStrings(StringsOf(data), nested[k]);
      StringsAreParts(data, nested[k]);
      if HasDigitRun(nested[k]) {
        RunInPart(nested[k], data);
      }
    }
    NoRunsNoKeys(nested, |data|);
  }

  lemma {:induction false} NoRunsNoKeys(values: seq<seq<byte>>, limit: nat)
    requires AllShorter(values, limit) && forall k :: 0 <= k < |values| ==> !HasDigitRun(values[k])
    ensures FindAllUnpruned(values, limit) == []
    decreases limit, 0, |values|
  {
    hide HasDigitRun;
    if values != [] {
      NoRunsNoKeys(values[..|values| - 1], limit);
      NoRunNoKeys(values[|values| - 1]);
    }
  }

  /** The eight-digit test never changes what is found, for any bytes. */
  lemma {:induction false} PruningChangesNothing(data: seq<byte>)
    ensures Find(data) == FindUnpruned(data)
    decreases |data|, 1, 0
  {
    hide OwnKeys, HasDigitRun;
    NestedAreShorter(data);
    if HasDigitRun(data) {
      PruningChangesNothingIn(Nested(StringsOf(data)), |data|);
    } else {
      NoRunNoKeys(data);
    }
  }

  lemma {:induction false} PruningChangesNothingIn(values: seq<seq<byte>>, limit: nat)
    requires AllShorter(values, limit)
    ensures FindAll(values, limit) == FindAllUnpruned(values, limit)
    decreases limit, 0, |values|
  {
    if values != [] {
      PruningChangesNothingIn(values[..|values| - 1], limit);
      PruningChangesNothing(values[|values| - 1]);
    }
  }

  // ----- Which records hold a key

  /** One of the characters `0` to `9`. */
  predicate Digit(b: byte) {
    '0' as int <= b as int <= '9' as int
  }

  predicate HexDigit(b: byte) {
    Digit(b) || 'a' as int <= b as int <= 'f' as int || 'A' as int <= b as int <= 'F' as int
  }

  /** One to twenty digits. */
  ghost predicate DecimalText(s: seq<byte>) {
    1 <= |s| <= 20 && forall i :: 0 <= i < |s| ==> Digit(s[i])
  }

  /** Thirty-two hexadecimal digits of either case. */
  ghost predicate HexText(s: seq<byte>) {
    |s| == 32 && forall i :: 0 <= i < |s| ==> HexDigit(s[i])
  }

  lemma DigitIs(b: byte)
    ensures IsDigit(b) <==> Digit(b)
  {}

  lemma HexDigitIs(b: byte)
    ensures IsHexDigit(b) <==> HexDigit(b)
  {
    hide IsDigit, Digit;
    DigitIs(b);
    LetterRange(b);
  }

  lemma LetterRange(b: byte)
    ensures 0x61 <= b <= 0x66 <==> 0x61 <= b as int <= 0x66
    ensures 0x41 <= b <= 0x46 <==> 0x41 <= b as int <= 0x46
  {}

  lemma TextIs(s: seq<byte>)
    ensures IsDecimal(s) <==> DecimalText(s)
    ensures IsHexKey(s) <==> HexText(s)
    ensures DecimalText(s) ==> !HexText(s) && AllDigits(s)
  {
    hide Digit, HexDigit, IsDigit, IsHexDigit;
    forall i | 0 <= i < |s| ensures IsDigit(s[i]) <==> Digit(s[i]) {
      DigitIs(s[i]);
    }
    forall i | 0 <= i < |s| ensures IsHexDigit(s[i]) <==> HexDigit(s[i]) {
      HexDigitIs(s[i]);
    }
  }

  /** The decimal digits of a number, without leading zeros. */
  function Digits(n: nat): (s: seq<byte>)
    ensures s != []
  {
    if n < 10 then [ByteOf('0' as int + n)] else Digits(n / 10) + [ByteOf('0' as int + n % 10)]
  }

  /** A number written in decimal reads back. */
  lemma {:induction false} DecimalReadsBack(n: nat)
    ensures AllDigits(Digits(n)) && Decimal(Digits(n)) == n
  {
    hide IsDigit, DigitValue, ByteOf;
    DigitReadsBack(n % 10);
    var s := Digits(n);
    if n >= 10 {
      DecimalReadsBack(n / 10);
      assert s[..|s| - 1] == Digits(n / 10);
    } else {
      assert s[..0] == [];
    }
  }

  lemma DigitReadsBack(d: nat)
    requires d < 10
    ensures var b := ByteOf('0' as int + d); IsDigit(b) && DigitValue(b) == d
  {
    hide IsDigit, DigitValue;
    var b := ByteOf('0' as int + d);
    DigitIs(b);
    DigitAbove(b);
  }

  lemma {:induction false} DigitAbove(b: byte)
    ensures IsDigit(b) ==> DigitValue(b) == b as int - 0x30
  {}

  /** The string is the decimal text of a number below 2^64. */
  ghost predicate Reads(s: seq<byte>, n: nat) {
    DecimalText(s) && AllDigits(s) && Decimal(s) == n && n < 0x1_0000_0000_0000_0000
  }

  /** String `i` is a number below 2^64, and no other string is one. */
  ghost predicate OnlyNumber(strings: seq<seq<byte>>, i: nat, n: nat) {
    i < |strings| && Reads(strings[i], n) && forall j :: 0 <= j < |strings| && j != i ==> !IsNumber(strings[j])
  }

  /** String `i` is hexadecimal, and no other string is. */
  ghost predicate OnlyHex(strings: seq<seq<byte>>, i: nat) {
    i < |strings| && HexText(strings[i]) && forall j :: 0 <= j < |strings| && j != i ==> !HexText(strings[j])
  }

  ghost predicate IsNumber(s: seq<byte>) {
    exists n :: Reads(s, n)
  }

  lemma NumberAtEnd(front: seq<seq<byte>>, last: seq<byte>)
    ensures IsNumber(last) ==> AllDigits(last) && Reads(last, Decimal(last))
                               && Numbers(front + [last]) == Numbers(front) + [Decimal(last)]
    ensures !IsNumber(last) ==> Numbers(front + [last]) == Numbers(front)
  {
    hide DecimalText, HexText, Decimal;
    TextIs(last);
    assert (front + [last])[..|front|] == front;
    if IsDecimal(last) && Decimal(last) < 0x1_0000_0000_0000_0000 {
      assert Reads(last, Decimal(last));
    }
  }

  lemma ReadsOne(s: seq<byte>, m: nat, n: nat)
    requires Reads(s, m) && Reads(s, n)
    ensures m == n
  {}

  lemma {:induction false} NoNumbersIff(strings: seq<seq<byte>>)
    ensures Numbers(strings) == [] <==> forall j :: 0 <= j < |strings| ==> !IsNumber(strings[j])
  {
    hide IsNumber, Reads;
    if strings != [] {
      var front, last := strings[..|strings| - 1], strings[|strings| - 1];
      NoNumbersIff(front);
      assert strings == front + [last];
      NumberAtEnd(front, last);
      hide Numbers;
      assert forall j :: 0 <= j < |front| ==> front[j] == strings[j];
    }
  }

  lemma {:induction false} OneNumberIff(strings: seq<seq<byte>>, n: nat)
    ensures Numbers(strings) == [n] <==> exists i: nat :: OnlyNumber(strings, i, n)
  {
    hide IsNumber, Reads;
    if strings != [] {
      var front, last := strings[..|strings| - 1], strings[|strings| - 1];
      OneNumberIff(front, n);
      NoNumbersIff(front);
      assert strings == front + [last];
      NumberAtEnd(front, last);
      hide Numbers;
      assert forall j :: 0 <= j < |front| ==> front[j] == strings[j];
      if IsNumber(last) {
        OnlyAtEnd(strings, n);
        OneAppended(Numbers(front), Decimal(last), n);
      } else {
        OnlyBefore(front, last, n);
      }
    }
  }

  lemma OnlyAtEnd(strings: seq<seq<byte>>, n: nat)
    requires strings != [] && IsNumber(strings[|strings| - 1])
    ensures (exists i: nat :: OnlyNumber(strings, i, n)) <==>
      Reads(strings[|strings| - 1], n) && forall j :: 0 <= j < |strings| - 1 ==> !IsNumber(strings[j])
    ensures AllDigits(strings[|strings| - 1])
    ensures Reads(strings[|strings| - 1], n) <==> Decimal(strings[|strings| - 1]) == n
  {
    hide DecimalText, Decimal;
    var last := |strings| - 1;
    if Reads(strings[last], n) && forall j :: 0 <= j < last ==> !IsNumber(strings[j]) {
      assert OnlyNumber(strings, last, n);
    }
  }

  lemma OnlyBefore(front: seq<seq<byte>>, last: seq<byte>, n: nat)
    requires !IsNumber(last)
    ensures (exists i: nat :: OnlyNumber(front + [last], i, n)) <==> exists i: nat :: OnlyNumber(front, i, n)
  {
    hide IsNumber, Reads;
    var strings := front + [last];
    NoNumberReads(last, n);
    assert forall j :: 0 <= j < |front| ==> front[j] == strings[j];
    if i: nat :| OnlyNumber(strings, i, n) {
      assert OnlyNumber(front, i, n);
    }
    if i: nat :| OnlyNumber(front, i, n) {
      assert OnlyNumber(strings, i, n);
    }
  }

  lemma OneAppended<T>(front: seq<T>, last: T, x: T)
    ensures front + [last] == [x] <==> front == [] && last == x
  {
    if front + [last] == [x] {
      assert |front + [last]| == 1 && (front + [last])[0] == x;
    }
  }

  lemma NoNumberReads(s: seq<byte>, n: nat)
    requires !IsNumber(s)
    ensures !Reads(s, n)
  {}

  lemma {:induction false} NoHexIff(strings: seq<seq<byte>>)
    ensures Hexes(strings) == [] <==> forall j :: 0 <= j < |strings| ==> !HexText(strings[j])
  {
    hide IsHexKey, HexText;
    if strings != [] {
      var front := strings[..|strings| - 1];
      NoHexIff(front);
      TextIs(strings[|strings| - 1]);
      assert forall j :: 0 <= j < |front| ==> front[j] == strings[j];
    }
  }

  lemma {:induction false} OneHexIff(strings: seq<seq<byte>>, s: seq<byte>)
    ensures Hexes(strings) == [s] <==> exists i: nat :: OnlyHex(strings, i) && strings[i] == s
  {
    hide IsHexKey, HexText;
    if strings != [] {
      var front, last := strings[..|strings| - 1], |strings| - 1;
      OneHexIff(front, s);
      NoHexIff(front);
      TextIs(strings[last]);
      assert forall j :: 0 <= j < |front| ==> front[j] == strings[j];
      hide Hexes;
      if HexText(strings[last]) {
        OneAppended(Hexes(front), strings[last], s);
        if Hexes(front) == [] && strings[last] == s {
          assert OnlyHex(strings, last);
        }
      } else {
        if i: nat :| OnlyHex(front, i) && front[i] == s {
          assert OnlyHex(strings, i);
        }
        if i: nat :| OnlyHex(strings, i) && strings[i] == s {
          assert OnlyHex(front, i);
        }
      }
    }
  }

  /** The other strings are taken for messages. */
  lemma {:induction false} NestedAre(strings: seq<seq<byte>>, s: seq<byte>)
    ensures s in Nested(strings) <==> s in strings && !HexText(s) && !DecimalText(s)
  {
    hide IsHexKey, IsDecimal, HexText, DecimalText;
    if strings != [] {
      NestedAre(strings[..|strings| - 1], s);
      TextIs(strings[|strings| - 1]);
      assert s in strings <==> s in strings[..|strings| - 1] || s == strings[|strings| - 1];
    }
  }

  /** A number of the record that a number in a nested message, divided by 100, gives. */
  ghost predicate NamesParent(record: seq<(nat, nat)>, strings: seq<seq<byte>>, p: nat) {
    && (exists k :: 0 <= k < |record| && record[k].1 == p)
    && exists s, c :: s in strings && !HexText(s) && !DecimalText(s) && c in Values(VarintsOf(s)) && c / 100 == p
  }

  ghost predicate OnlyParent(record: seq<(nat, nat)>, strings: seq<seq<byte>>, q: nat) {
    forall p: nat :: NamesParent(record, strings, p) <==> p == q
  }

  lemma ParentIs(record: seq<(nat, nat)>, strings: seq<seq<byte>>, q: nat)
    ensures ParentQuest(record, Nested(strings)) == Some(q) <==> OnlyParent(record, strings, q)
  {
    ParentQuestIsOnlyParent(record, Nested(strings), q);
    forall p: nat ensures IsParent(record, Nested(strings), p) <==> NamesParent(record, strings, p) {
      NamesParentIs(record, strings, p);
    }
    hide IsParent, NamesParent, ParentQuest;
  }

  lemma NamesParentIs(record: seq<(nat, nat)>, strings: seq<seq<byte>>, p: nat)
    ensures IsParent(record, Nested(strings), p) <==> NamesParent(record, strings, p)
  {
    hide HexText, DecimalText, VarintsOf, Nested;
    forall s ensures s in Nested(strings) <==> s in strings && !HexText(s) && !DecimalText(s) {
      NestedAre(strings, s);
    }
    var nested := Nested(strings);
    if NamesParent(record, strings, p) {
      var s, c :| s in strings && !HexText(s) && !DecimalText(s) && c in Values(VarintsOf(s)) && c / 100 == p;
      var k :| 0 <= k < |nested| && nested[k] == s;
      assert c in Values(VarintsOf(nested[k]));
    }
  }

  /** The text with its letters in lower case. */
  ghost predicate LowerCase(key: seq<byte>, s: seq<byte>) {
    |key| == |s| && forall i :: 0 <= i < |s| ==>
      key[i] as int == s[i] as int + if 'A' as int <= s[i] as int <= 'Z' as int then 32 else 0
  }

  lemma LowerIs(s: seq<byte>)
    ensures LowerCase(Lower(s), s)
  {
    hide LowerByte;
    forall i | 0 <= i < |s|
      ensures LowerByte(s[i]) as int == s[i] as int + if 'A' as int <= s[i] as int <= 'Z' as int then 32 else 0
    {
      LowerByteIs(s[i]);
    }
  }

  lemma LowerByteIs(b: byte)
    ensures LowerByte(b) as int == b as int + if 'A' as int <= b as int <= 'Z' as int then 32 else 0
  {}

  lemma LowerCaseIsOne(key: seq<byte>, other: seq<byte>, s: seq<byte>)
    requires LowerCase(key, s) && LowerCase(other, s)
    ensures key == other
  {
    forall i | 0 <= i < |s| ensures key[i] == other[i] {
      SameValueSameByte(key[i], other[i]);
    }
  }

  lemma SameValueSameByte(a: byte, b: byte)
    requires a as int == b as int
    ensures a == b
  {
    ByteComesBack(a);
    ByteComesBack(b);
  }

  /** The one hexadecimal text among the strings, in lower case, or none if there is none. */
  ghost predicate GivesHex(strings: seq<seq<byte>>, aesKey: Option<seq<byte>>) {
    match aesKey
    case None => forall j :: 0 <= j < |strings| ==> !HexText(strings[j])
    case Some(key) => exists i: nat :: OnlyHex(strings, i) && LowerCase(key, strings[i])
  }

  /** The one parent quest, or none if there is not exactly one. */
  ghost predicate GivesQuest(record: seq<(nat, nat)>, strings: seq<seq<byte>>, quest: Option<nat>) {
    match quest
    case None => forall q: nat :: !OnlyParent(record, strings, q)
    case Some(q) => OnlyParent(record, strings, q)
  }

  /** The fields of a message make the key `k`: one number below 2^64 of at least 10^7, at most one
      hexadecimal text, and, without one, a parent quest. */
  ghost predicate HoldsKey(record: seq<(nat, nat)>, strings: seq<seq<byte>>, k: FoundKey) {
    && k.number >= 10_000_000 && (exists i: nat :: OnlyNumber(strings, i, k.number))
    && GivesHex(strings, k.aesKey) && GivesQuest(record, strings, k.parentQuest)
    && (k.aesKey.Some? || k.parentQuest.Some?)
  }

  /** A message holds one key of its own or none, and `k` exactly if its fields make it. */
  lemma OwnKeysIff(data: seq<byte>, k: FoundKey)
    ensures OwnKeys(data) == [k] <==> HoldsKey(VarintsOf(data), StringsOf(data), k)
    ensures |OwnKeys(data)| <= 1
  {
    hide Numbers, Hexes, Nested, ParentQuest, OnlyNumber, GivesHex, GivesQuest, VarintsOf, StringsOf, Lower;
    var record, strings := VarintsOf(data), StringsOf(data);
    OneNumberIff(strings, k.number);
    GivesHexIff(strings, k.aesKey);
    GivesQuestIff(record, strings, k.parentQuest);
    if |Numbers(strings)| == 1 {
      assert Numbers(strings) == [Numbers(strings)[0]];
    }
  }

  lemma GivesQuestIff(record: seq<(nat, nat)>, strings: seq<seq<byte>>, quest: Option<nat>)
    ensures GivesQuest(record, strings, quest) <==> ParentQuest(record, Nested(strings)) == quest
  {
    hide OnlyParent, ParentQuest, Nested;
    forall q: nat ensures ParentQuest(record, Nested(strings)) == Some(q) <==> OnlyParent(record, strings, q) {
      ParentIs(record, strings, q);
    }
  }

  lemma GivesHexIff(strings: seq<seq<byte>>, aesKey: Option<seq<byte>>)
    ensures GivesHex(strings, aesKey) <==>
      |Hexes(strings)| <= 1 && aesKey == if Hexes(strings) == [] then None else Some(Lower(Hexes(strings)[0]))
  {
    hide Hexes, OnlyHex, LowerCase, Lower, HexText;
    NoHexIff(strings);
    if aesKey.Some? {
      HexKeyIff(strings, aesKey.value);
    }
  }

  lemma HexKeyIff(strings: seq<seq<byte>>, key: seq<byte>)
    ensures |Hexes(strings)| == 1 && Lower(Hexes(strings)[0]) == key <==>
      exists i: nat :: OnlyHex(strings, i) && LowerCase(key, strings[i])
  {
    hide Hexes, OnlyHex, LowerCase, Lower;
    HexWithin(strings);
    if i: nat :| i < |strings| && OnlyHex(strings, i) && LowerCase(key, strings[i]) {
      OneHexIff(strings, strings[i]);
      LowerIs(strings[i]);
      LowerCaseIsOne(key, Lower(strings[i]), strings[i]);
    } else if |Hexes(strings)| == 1 {
      var s := Hexes(strings)[0];
      assert Hexes(strings) == [s];
      OneHexIff(strings, s);
      LowerIs(s);
    }
  }

  lemma HexWithin(strings: seq<seq<byte>>)
    ensures forall i: nat :: OnlyHex(strings, i) ==> i < |strings|
  {}

  /** A string that is neither hexadecimal nor decimal, and in which the key is found. */
  ghost predicate FoundInside(strings: seq<seq<byte>>, k: FoundKey) {
    exists s :: s in strings && !HexText(s) && !DecimalText(s) && k in Find(s)
  }

  lemma FoundInNested(strings: seq<seq<byte>>, k: FoundKey)
    ensures FoundInside(strings, k) <==> exists s :: s in Nested(strings) && k in Find(s)
  {
    hide Find, HexText, DecimalText, Nested;
    if FoundInside(strings, k) {
      var s :| s in strings && !HexText(s) && !DecimalText(s) && k in Find(s);
      NestedAre(strings, s);
    }
    if s :| s in Nested(strings) && k in Find(s) {
      NestedAre(strings, s);
    }
  }

  /** What is found is the message's own key, and what is found in each string that is neither
      hexadecimal nor decimal. */
  lemma FoundIff(data: seq<byte>, k: FoundKey)
    ensures k in Find(data) <==> OwnKeys(data) == [k] || FoundInside(StringsOf(data), k)
  {
    hide OwnKeys, StringsOf, Find, FindUnpruned, FindAllUnpruned, FoundInside, Nested, HoldsKey;
    PruningChangesNothing(data);
    UnprunedIs(data);
    FoundInAll(Nested(StringsOf(data)), |data|, k);
    FoundInNested(StringsOf(data), k);
    OwnKeysIff(data, k);
    if k in OwnKeys(data) {
      assert OwnKeys(data) == [k];
    }
  }

  lemma UnprunedIs(data: seq<byte>)
    ensures AllShorter(Nested(StringsOf(data)), |data|)
    ensures FindUnpruned(data) == OwnKeys(data) + FindAllUnpruned(Nested(StringsOf(data)), |data|)
  {
    NestedAreShorter(data);
  }

  lemma {:induction false} FoundInAll(values: seq<seq<byte>>, limit: nat, k: FoundKey)
    requires AllShorter(values, limit)
    ensures k in FindAllUnpruned(values, limit) <==> exists s :: s in values && k in Find(s)
  {
    hide Find, FindUnpruned;
    if values != [] {
      var last := values[|values| - 1];
      FoundInAll(values[..|values| - 1], limit, k);
      PruningChangesNothing(last);
      assert forall s :: s in values <==> s in values[..|values| - 1] || s == last;
    }
  }

  // ----- The methods

  /** `re.search(rb"[0-9]{8}", data)`. */
  method SearchDigitRun(data: seq<byte>) returns (found: bool)
    ensures found == HasDigitRun(data)
  {
    for i := 0 to |data|
      invariant forall k :: 0 <= k < i ==> !RunAt(data, k)
    {
      if RunAt(data, i) {
        return true;
      }
    }
    return false;
  }

  method ParentQuestOf(record: seq<(nat, nat)>, nested: seq<seq<byte>>) returns (quest: Option<nat>)
    ensures quest == ParentQuest(record, nested)
  {
    hide Values, VarintsOf;
    var children: set<nat> := {};
    for k := 0 to |nested|
      invariant children == Children(nested[..k])
    {
      var varints, _ := Fields(nested[k]);
      assert nested[..k + 1][..k] == nested[..k];
      children := children + Values(varints);
    }
    assert nested[..|nested|] == nested;
    var parents := (set c | c in children :: c / 100) * Values(record);
    if parents == {} {
      return None;
    }
    var parent :| parent in parents;
    quest := if parents == {parent} then Some(parent) else None;
  }

  lemma {:induction false} ChildrenAre(nested: seq<seq<byte>>, c: nat)
    ensures c in Children(nested) <==> exists k :: 0 <= k < |nested| && c in Values(VarintsOf(nested[k]))
  {
    hide Values, VarintsOf;
    if nested != [] {
      ChildrenAre(nested[..|nested| - 1], c);
      assert forall k :: 0 <= k < |nested| - 1 ==> nested[..|nested| - 1][k] == nested[k];
    }
  }

  /** A record's parent quest is the only number in it that a number in a nested message, divided by
      100, gives. */
  lemma ParentQuestIsOnlyParent(record: seq<(nat, nat)>, nested: seq<seq<byte>>, q: nat)
    ensures ParentQuest(record, nested) == Some(q)
       <==> forall p: nat :: IsParent(record, nested, p) <==> p == q
  {
    hide IsParent, Parents;
    forall p: nat ensures IsParent(record, nested, p) <==> p in Parents(record, nested) {
      ParentsAre(record, nested, p);
    }
    if ParentQuest(record, nested) == Some(q) {
      assert Parents(record, nested) == {q};
    }
    if forall p: nat :: IsParent(record, nested, p) <==> p == q {
      assert Parents(record, nested) == {q};
    }
  }

  lemma ParentsAre(record: seq<(nat, nat)>, nested: seq<seq<byte>>, p: nat)
    ensures IsParent(record, nested, p) <==> p in Parents(record, nested)
  {
    hide Values, VarintsOf;
    if p in Parents(record, nested) {
      var c :| c in Children(nested) && c / 100 == p;
      ChildrenAre(nested, c);
    }
    if IsParent(record, nested, p) {
      var k, c :| 0 <= k < |nested| && c in Values(VarintsOf(nested[k])) && c / 100 == p;
      ChildrenAre(nested, c);
    }
  }

  ghost predicate IsParent(record: seq<(nat, nat)>, nested: seq<seq<byte>>, p: nat) {
    p in Values(record) && exists k, c :: 0 <= k < |nested| && c in Values(VarintsOf(nested[k])) && c / 100 == p
  }

  method OwnKeysOf(data: seq<byte>, varints: seq<(nat, nat)>, strings: seq<seq<byte>>) returns (own: seq<FoundKey>)
    requires varints == VarintsOf(data) && strings == StringsOf(data)
    ensures own == OwnKeys(data)
  {
    hide ParentQuest, VarintsOf, StringsOf, Hexes, Numbers, Nested;
    var hexes, decimals := Hexes(strings), Numbers(strings);
    own := [];
    if |decimals| == 1 && decimals[0] >= 10_000_000 && |hexes| <= 1 {
      var aesKey := if hexes == [] then None else Some(Lower(hexes[0]));
      var quest := ParentQuestOf(varints, Nested(strings));
      if aesKey.Some? || quest.Some? {
        own := [FoundKey(decimals[0], aesKey, quest)];
      }
    }
  }

  /** `find_keys`. It ends because every nested string is strictly shorter than its message. */
  method FindKeys(data: seq<byte>) returns (found: seq<FoundKey>)
    ensures found == Find(data)
    decreases |data|, 1
  {
    hide OwnKeys, HasDigitRun, StringsOf, Nested, FindAll;
    found := [];
    var hasRun := SearchDigitRun(data);
    if !hasRun {
      return;
    }
    var varints, strings := Fields(data);
    found := OwnKeysOf(data, varints, strings);
    NestedAreShorter(data);
    var more := FindInAll(Nested(strings), |data|);
    found := found + more;
  }

  /** The loop over the nested strings. */
  method FindInAll(nested: seq<seq<byte>>, ghost limit: nat) returns (found: seq<FoundKey>)
    requires AllShorter(nested, limit)
    ensures found == FindAll(nested, limit)
    decreases limit, 0
  {
    hide Find;
    found := [];
    for k := 0 to |nested|
      invariant found == FindAll(nested[..k], limit)
    {
      var more := FindKeys(nested[k]);
      assert nested[..k + 1][..k] == nested[..k];
      found := found + more;
    }
    assert nested[..|nested|] == nested;
  }
}
