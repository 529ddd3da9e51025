/** The protobuf reader of capture/proto.py, against the encoding it reads. */
module Proto {
  import opened Bytes

  // ----- Varints

  /** The most bytes a varint may have: the reader gives up once the shift passes 63. */
  const MAX_VARINT := 10

  function Pow128(n: nat): (p: nat)
    ensures p > 0
  {
    if n == 0 then 1 else 128 * Pow128(n - 1)
  }

  /** The varint at the start of `bytes` and its length, when `room` more bytes may be read. */
  function VarintIn(bytes: seq<byte>, room: nat): (read: Option<(nat, nat)>)
    ensures read.Some? ==> 0 < read.value.1 <= |bytes| && read.value.1 <= room && read.value.0 < Pow128(room)
    decreases room
  {
    if bytes == [] || room == 0 then None
    else
      var first := bytes[0] as int;
      if first < 128 then Some((first, 1))
      else
        var rest := VarintIn(bytes[1..], room - 1);
        if rest.None? then None else Some((first - 128 + 128 * rest.value.0, 1 + rest.value.1))
  }

  function EncodeVarint(value: nat): (bytes: seq<byte>)
    ensures bytes != []
  {
    if value < 128 then [ByteOf(value)] else [ByteOf(128 + value % 128)] + EncodeVarint(value / 128)
  }

  /** A first byte of 128 or more, continued by the rest of the varint. */
  function Continued(first: nat, rest: Option<(nat, nat)>): Option<(nat, nat)>
    requires first >= 128
  {
    match rest
    case None => None
    case Some((value, length)) => Some((first - 128 + 128 * value, 1 + length))
  }

  /** One step of the reader, on numbers. */
  lemma VarintStep(bytes: seq<byte>, room: nat, first: nat)
    requires bytes != [] && room > 0 && bytes[0] as int == first
    ensures first < 128 ==> VarintIn(bytes, room) == Some((first, 1))
    ensures first >= 128 ==> VarintIn(bytes, room) == Continued(first, VarintIn(bytes[1..], room - 1))
  {}

  /** A number below 128^room reads back as itself, with whatever follows it left over. */
  lemma {:induction false} VarintRoundTrip(value: nat, room: nat, after: seq<byte>)
    requires room > 0 && value < Pow128(room)
    ensures VarintIn(EncodeVarint(value) + after, room) == Some((value, |EncodeVarint(value)|))
  {
    hide ByteOf, VarintIn;
    assert room == 1 ==> value < 128 by {
      assert Pow128(1) == 128;
    }
    var bytes := EncodeVarint(value) + after;
    VarintStep(bytes, room, if value < 128 then value else 128 + value % 128);
    if value >= 128 {
      VarintRoundTrip(value / 128, room - 1, after);
      assert bytes[1..] == EncodeVarint(value / 128) + after;
    }
  }

  /** A larger number does not read back at all. */
  lemma {:induction false} TooLargeVarintFails(value: nat, room: nat, after: seq<byte>)
    requires value >= Pow128(room)
    ensures VarintIn(EncodeVarint(value) + after, room).None?
  {
    hide ByteOf;
    if room > 0 {
      var bytes := EncodeVarint(value) + after;
      assert Pow128(room) == 128 * Pow128(room - 1);
      assert bytes[1..] == EncodeVarint(value / 128) + after;
      TooLargeVarintFails(value / 128, room - 1, after);
    }
  }

  lemma VarintLimit()
    ensures Pow128(MAX_VARINT) == 0x40_0000_0000_0000_0000
  {
    assert Pow128(5) == 0x8_0000_0000;
  }

  /** A varint reads back exactly when it is below 2^70. */
  lemma VarintReadsBackIff(value: nat, after: seq<byte>)
    ensures VarintIn(EncodeVarint(value) + after, MAX_VARINT) == Some((value, |EncodeVarint(value)|))
       <==> value < 0x40_0000_0000_0000_0000
  {
    VarintLimit();
    if value < Pow128(MAX_VARINT) {
      VarintRoundTrip(value, MAX_VARINT, after);
    } else {
      TooLargeVarintFails(value, MAX_VARINT, after);
    }
  }

  /** `varint`: the value and the position after it, or nothing where the source raises. */
  method Varint(data: seq<byte>, start: nat) returns (read: Option<(nat, nat)>)
    requires start <= |data|
    ensures read == PlacedAt(VarintIn(data[start..], MAX_VARINT), start)
  {
    hide VarintIn, Pow128;
    var value: nat, shift: nat, pos := 0, 0, start;
    ghost var digits: nat := 0;
    assert Pow128(0) == 1 by { PowerStart(); }
    ShiftedByNothing(VarintIn(data[start..], MAX_VARINT), start);
    while pos < |data|
      invariant start <= pos == start + digits <= |data| && shift == 7 * digits && digits < MAX_VARINT
      invariant Shifted(VarintIn(data[start..], MAX_VARINT), 0, 1, start)
             == Shifted(VarintIn(data[pos..], MAX_VARINT - digits), value, Pow128(digits), pos)
      decreases |data| - pos
    {
      var byte: nat := data[pos] as int;
      VarintStep(data[pos..], MAX_VARINT - digits, byte);
      assert data[pos..][1..] == data[pos + 1..];
      PowerStep(digits, byte, value, VarintIn(data[pos + 1..], MAX_VARINT - digits - 1), pos);
      pos := pos + 1;
      value := value + byte % 128 * Pow128(shift / 7);
      if byte < 128 {
        return Some((value, pos));
      }
      shift := shift + 7;
      digits := digits + 1;
      if shift > 63 {
        VarintNeedsRoom(data[pos..]);
        return None;
      }
    }
    VarintNeedsBytes(data[pos..], MAX_VARINT - digits);
    return None;
  }

  /** What was read of a suffix, with the position after it in the whole. */
  function PlacedAt(read: Option<(nat, nat)>, pos: nat): Option<(nat, nat)> {
    match read
    case None => None
    case Some((value, length)) => Some((value, pos + length))
  }

  /** A varint read at `pos` after digits worth `value`, the next one worth `weight`. */
  function Shifted(read: Option<(nat, nat)>, value: nat, weight: nat, pos: nat): Option<(nat, nat)> {
    match read
    case None => None
    case Some((rest, length)) => Some((value + weight * rest, pos + length))
  }

  lemma ShiftedByNothing(read: Option<(nat, nat)>, pos: nat)
    ensures Shifted(read, 0, 1, pos) == PlacedAt(read, pos)
  {}

  lemma PowerStart()
    ensures Pow128(0) == 1
  {}

  lemma PowerStep(digits: nat, byte: nat, value: nat, rest: Option<(nat, nat)>, pos: nat)
    requires byte < 256
    ensures Pow128(digits + 1) == 128 * Pow128(digits) && byte % 128 * Pow128(digits) >= 0
    ensures byte < 128 ==>
      Shifted(Some((byte, 1)), value, Pow128(digits), pos) == Some((value + byte % 128 * Pow128(digits), pos + 1))
    ensures byte >= 128 ==>
      Shifted(Continued(byte, rest), value, Pow128(digits), pos)
      == Shifted(rest, value + byte % 128 * Pow128(digits), Pow128(digits + 1), pos + 1)
  {
    var p := Pow128(digits);
    if byte >= 128 && rest.Some? {
      var r := rest.value.0;
      assert byte % 128 == byte - 128;
      assert p * (byte - 128 + 128 * r) == p * (byte - 128) + p * (128 * r);
      assert p * (128 * r) == 128 * p * r;
      assert p * (byte - 128) == (byte - 128) * p;
    } else {
      assert p * byte == byte * p;
    }
  }

  lemma VarintNeedsRoom(bytes: seq<byte>)
    ensures VarintIn(bytes, 0).None?
  {}

  lemma VarintNeedsBytes(bytes: seq<byte>, room: nat)
    requires bytes == []
    ensures VarintIn(bytes, room).None?
  {}

  // ----- Fields

  datatype Field =
    | VarintField(number: nat, value: nat)
    | BytesField(number: nat, data: seq<byte>)
    | FixedField(number: nat, wire: nat, data: seq<byte>)

  /** The field at the start of `bytes` and its length. */
  function FieldIn(bytes: seq<byte>): (read: Option<(Field, nat)>)
    ensures read.Some? ==> 0 < read.value.1 <= |bytes|
  {
    match VarintIn(bytes, MAX_VARINT)
    case None => None
    case Some((tag, length)) =>
      if tag / 8 == 0 then None else FieldBody(tag / 8, tag % 8, length, bytes[length..])
  }

  /** The field with the given tag, which took `length` bytes, and the bytes after the tag. */
  function FieldBody(number: nat, wire: nat, length: nat, after: seq<byte>): (read: Option<(Field, nat)>)
    requires length > 0
    ensures read.Some? ==> 0 < read.value.1 <= length + |after|
  {
    match wire
    case 0 => VarintBody(number, length, after)
    case 1 => FixedBody(number, 1, 8, length, after)
    case 2 => BytesBody(number, length, after)
    case 5 => FixedBody(number, 5, 4, length, after)
    case _ => None
  }

  function VarintBody(number: nat, length: nat, after: seq<byte>): (read: Option<(Field, nat)>)
    ensures read.Some? ==> length <= read.value.1 <= length + |after|
  {
    match VarintIn(after, MAX_VARINT)
    case None => None
    case Some((value, n)) => Some((VarintField(number, value), length + n))
  }

  function BytesBody(number: nat, length: nat, after: seq<byte>): (read: Option<(Field, nat)>)
    ensures read.Some? ==> length <= read.value.1 <= length + |after|
  {
    match VarintIn(after, MAX_VARINT)
    case None => None
    case Some((size, n)) =>
      if n + size > |after| then None else Some((BytesField(number, after[n..n + size]), length + n + size))
  }

  function FixedBody(number: nat, wire: nat, width: nat, length: nat, after: seq<byte>): (read: Option<(Field, nat)>)
    ensures read.Some? ==> length <= read.value.1 <= length + |after|
  {
    if width > |after| then None else Some((FixedField(number, wire, after[..width]), length + width))
  }

  /** All fields of a message, or nothing where the bytes are not a message. */
  function FieldsIn(bytes: seq<byte>): Option<seq<Field>> {
    if bytes == [] then Some([])
    else match FieldIn(bytes)
      case None => None
      case Some((field, length)) =>
        match FieldsIn(bytes[length..])
        case None => None
        case Some(rest) => Some([field] + rest)
  }

  function Varints(fields: seq<Field>): seq<(nat, nat)> {
    if fields == [] then []
    else
      var last := fields[|fields| - 1];
      Varints(fields[..|fields| - 1]) + if last.VarintField? then [(last.number, last.value)] else []
  }

  function Strings(fields: seq<Field>): seq<seq<byte>> {
    if fields == [] then []
    else
      var last := fields[|fields| - 1];
      Strings(fields[..|fields| - 1]) + if last.BytesField? then [last.data] else []
  }

  /** What `fields` returns: bytes that are not a message give no fields. */
  function VarintsOf(data: seq<byte>): seq<(nat, nat)> {
    match FieldsIn(data) case None => [] case Some(fields) => Varints(fields)
  }

  function StringsOf(data: seq<byte>): seq<seq<byte>> {
    match FieldsIn(data) case None => [] case Some(fields) => Strings(fields)
  }

  // ----- The encoder

  predicate Encodable(f: Field) {
    && 1 <= f.number < Pow128(MAX_VARINT) / 8
    && match f
       case VarintField(_, value) => value < Pow128(MAX_VARINT)
       case BytesField(_, data) => |data| < Pow128(MAX_VARINT)
       case FixedField(_, wire, data) => (wire == 1 && |data| == 8) || (wire == 5 && |data| == 4)
  }

  function EncodeField(f: Field): seq<byte> {
    match f
    case VarintField(number, value) => EncodeVarint(number * 8) + EncodeVarint(value)
    case BytesField(number, data) => EncodeVarint(number * 8 + 2) + EncodeVarint(|data|) + data
    case FixedField(number, wire, data) => EncodeVarint(number * 8 + wire) + data
  }

  function Encode(fields: seq<Field>): seq<byte> {
    if fields == [] then [] else EncodeField(fields[0]) + Encode(fields[1..])
  }

  lemma TagReads(number: nat, wire: nat, after: seq<byte>)
    requires 1 <= number < Pow128(MAX_VARINT) / 8 && wire < 8
    ensures FieldIn(EncodeVarint(number * 8 + wire) + after)
         == FieldBody(number, wire, |EncodeVarint(number * 8 + wire)|, after)
  {
    hide VarintIn, EncodeVarint, FieldBody;
    VarintLimit();
    var tag := EncodeVarint(number * 8 + wire);
    VarintRoundTrip(number * 8 + wire, MAX_VARINT, after);
    assert (tag + after)[|tag|..] == after;
  }

  lemma FieldRoundTrip(f: Field, after: seq<byte>)
    requires Encodable(f)
    ensures FieldIn(EncodeField(f) + after) == Some((f, |EncodeField(f)|))
  {
    hide VarintIn, EncodeVarint, FieldIn, Pow128;
    match f
    case VarintField(number, value) =>
      var tag, body := EncodeVarint(number * 8), EncodeVarint(value);
      assert EncodeField(f) + after == tag + (body + after);
      TagReads(number, 0, body + after);
      VarintRoundTrip(value, MAX_VARINT, after);
    case BytesField(number, data) =>
      var tag, size := EncodeVarint(number * 8 + 2), EncodeVarint(|data|);
      assert EncodeField(f) + after == tag + (size + (data + after));
      TagReads(number, 2, size + (data + after));
      VarintRoundTrip(|data|, MAX_VARINT, data + after);
      assert (size + (data + after))[|size|..|size| + |data|] == data;
    case FixedField(number, wire, data) =>
      var tag := EncodeVarint(number * 8 + wire);
      assert EncodeField(f) + after == tag + (data + after);
      TagReads(number, wire, data + after);
      assert (data + after)[..|data|] == data;
  }

  /** `fields` undoes the encoder for every list of fields the encoder takes. */
  lemma {:induction false} FieldsRoundTrip(fields: seq<Field>)
    requires forall k :: 0 <= k < |fields| ==> Encodable(fields[k])
    ensures FieldsIn(Encode(fields)) == Some(fields)
  {
    hide FieldIn, Encodable, EncodeField;
    if fields != [] {
      var head, rest := EncodeField(fields[0]), Encode(fields[1..]);
      FieldRoundTrip(fields[0], rest);
      FieldsRoundTrip(fields[1..]);
      assert (head + rest)[|head|..] == rest && head + rest != [];
      assert [fields[0]] + fields[1..] == fields;
    }
  }

  function Concat(pieces: seq<seq<byte>>): seq<byte> {
    if pieces == [] then [] else pieces[0] + Concat(pieces[1..])
  }

  /** An accepted input is tiled by its fields: it falls into one piece per field, each of which
      reads as that field and nothing more. */
  lemma {:induction false} FieldsTileInput(data: seq<byte>) returns (pieces: seq<seq<byte>>)
    requires FieldsIn(data).Some?
    ensures Concat(pieces) == data && |pieces| == |FieldsIn(data).value|
    ensures forall k :: 0 <= k < |pieces| ==>
      pieces[k] != [] && FieldIn(pieces[k]) == Some((FieldsIn(data).value[k], |pieces[k]|))
  {
    hide FieldIn;
    if data == [] {
      pieces := [];
    } else {
      var length := FieldIn(data).value.1;
      var rest := FieldsTileInput(data[length..]);
      FieldReadsOwnBytes(data);
      pieces := [data[..length]] + rest;
      assert pieces[1..] == rest && data == data[..length] + data[length..];
    }
  }

  lemma {:induction false} VarintReadsOwnBytes(bytes: seq<byte>, room: nat, more: nat)
    requires VarintIn(bytes, room).Some? && VarintIn(bytes, room).value.1 <= more <= |bytes|
    ensures VarintIn(bytes[..more], room) == VarintIn(bytes, room)
  {
    if bytes[0] as int >= 128 {
      assert bytes[..more][1..] == bytes[1..][..more - 1];
      VarintReadsOwnBytes(bytes[1..], room - 1, more - 1);
    }
  }

  lemma FieldReadsOwnBytes(bytes: seq<byte>)
    requires FieldIn(bytes).Some?
    ensures FieldIn(bytes[..FieldIn(bytes).value.1]) == FieldIn(bytes)
  {
    hide VarintIn, FieldBody;
    var whole := FieldIn(bytes).value.1;
    var (tag, length) := VarintIn(bytes, MAX_VARINT).value;
    BodyReadsOwnBytes(tag / 8, tag % 8, length, bytes[length..]);
    VarintReadsOwnBytes(bytes, MAX_VARINT, whole);
    assert bytes[..whole][length..] == bytes[length..][..whole - length];
  }

  lemma BodyReadsOwnBytes(number: nat, wire: nat, length: nat, after: seq<byte>)
    requires length > 0 && FieldBody(number, wire, length, after).Some?
    ensures var read := FieldBody(number, wire, length, after);
      && length <= read.value.1 <= length + |after|
      && FieldBody(number, wire, length, after[..read.value.1 - length]) == read
  {
    hide VarintIn;
    var more := FieldBody(number, wire, length, after).value.1 - length;
    var own := after[..more];
    match wire
    case 0 => VarintReadsOwnBytes(after, MAX_VARINT, more);
    case 1 => assert own[..8] == after[..8];
    case 2 =>
      VarintReadsOwnBytes(after, MAX_VARINT, more);
      var (size, n) := VarintIn(after, MAX_VARINT).value;
      assert own[n..n + size] == after[n..n + size];
    case 5 => assert own[..4] == after[..4];
    case _ =>
  }

  // ----- The reader loop

  /** The fields of a message whose first fields are read already. */
  function Prefixed(parsed: seq<Field>, rest: Option<seq<Field>>): Option<seq<Field>> {
    match rest case None => None case Some(fields) => Some(parsed + fields)
  }

  lemma PrefixedGrows(data: seq<byte>, pos: nat, parsed: seq<Field>)
    requires pos < |data|
    ensures FieldIn(data[pos..]).None? ==> Prefixed(parsed, FieldsIn(data[pos..])).None?
    ensures FieldIn(data[pos..]).Some? ==>
      var (field, length) := FieldIn(data[pos..]).value;
      Prefixed(parsed, FieldsIn(data[pos..])) == Prefixed(parsed + [field], FieldsIn(data[pos + length..]))
  {
    hide FieldIn;
    if FieldIn(data[pos..]).Some? {
      var (field, length) := FieldIn(data[pos..]).value;
      assert data[pos..][length..] == data[pos + length..];
      if FieldsIn(data[pos + length..]).Some? {
        assert parsed + ([field] + FieldsIn(data[pos + length..]).value) ==
            parsed + [field] + FieldsIn(data[pos + length..]).value;
      }
    }
  }

  /** One field was read, with what it adds and the position after it; or none was, where the source
      raises or the field runs past the data. */
  ghost predicate Adds(read: Option<(Field, nat)>, data: seq<byte>, start: nat, end: Option<nat>,
                       varints: seq<(nat, nat)>, strings: seq<seq<byte>>)
  {
    match read
    case None => end.None? || end.value > |data|
    case Some((field, length)) =>
      end == Some(start + length) && end.value <= |data| && varints == Varints([field]) && strings == Strings([field])
  }

  /** The loop of `fields` up to the end of one field: the tag, the value the field adds, and the
      position after it, which may lie beyond the data. Nothing where the source raises. */
  method OneField(data: seq<byte>, start: nat)
    returns (end: Option<nat>, varints: seq<(nat, nat)>, strings: seq<seq<byte>>)
    requires start < |data|
    ensures Adds(FieldIn(data[start..]), data, start, end, varints, strings)
  {
    hide VarintIn, FieldIn, FieldBody, Varints, Strings;
    FieldAfterTag(data, start);
    var tag := Varint(data, start);
    if tag.None? {
      return None, [], [];
    }
    var pos := tag.value.1;
    var number, wire := tag.value.0 / 8, tag.value.0 % 8;
    if number == 0 {
      return None, [], [];
    }
    end, varints, strings := TakeBody(data, pos, number, wire, pos - start);
  }

  /** The `match` on the wire type. */
  method TakeBody(data: seq<byte>, pos: nat, number: nat, wire: nat, ghost length: nat)
    returns (end: Option<nat>, varints: seq<(nat, nat)>, strings: seq<seq<byte>>)
    requires 0 < length <= pos <= |data|
    ensures Adds(FieldBody(number, wire, length, data[pos..]), data, pos - length, end, varints, strings)
  {
    hide VarintIn, Varints, Strings;
    varints, strings := [], [];
    match wire
    case 0 =>
      var value := Varint(data, pos);
      if value.None? {
        return None, [], [];
      }
      varints := [(number, value.value.0)];
      end := Some(value.value.1);
      OneFieldLists(VarintField(number, value.value.0));
    case 1 =>
      end := Some(pos + 8);
      SkipsFixed(data, pos, number, wire, 8, length);
    case 2 =>
      var size := Varint(data, pos);
      if size.None? {
        return None, [], [];
      }
      var from, to := size.value.1, size.value.1 + size.value.0;
      strings := [data[from..if to < |data| then to else |data|]];
      end := Some(to);
      if to <= |data| {
        SliceOfRest(data, pos, from, to);
        OneFieldLists(BytesField(number, data[from..to]));
      }
    case 5 =>
      end := Some(pos + 4);
      SkipsFixed(data, pos, number, wire, 4, length);
    case _ =>
      return None, [], [];
  }

  lemma SliceOfRest(data: seq<byte>, pos: nat, from: nat, to: nat)
    requires pos <= from <= to <= |data|
    ensures data[pos..][from - pos..to - pos] == data[from..to]
  {}

  lemma SkipsFixed(data: seq<byte>, pos: nat, number: nat, wire: nat, width: nat, length: nat)
    requires length <= pos <= |data|
    ensures Adds(FixedBody(number, wire, width, length, data[pos..]), data, pos - length, Some(pos + width), [], [])
  {
    if pos + width <= |data| {
      OneFieldLists(FixedField(number, wire, data[pos..][..width]));
    }
  }

  lemma OneFieldLists(f: Field)
    ensures Varints([f]) == if f.VarintField? then [(f.number, f.value)] else []
    ensures Strings([f]) == if f.BytesField? then [f.data] else []
  {
    assert [f][..0] == [];
  }

  lemma FieldAfterTag(data: seq<byte>, start: nat)
    requires start < |data|
    ensures VarintIn(data[start..], MAX_VARINT).None? ==> FieldIn(data[start..]).None?
    ensures VarintIn(data[start..], MAX_VARINT).Some? ==>
      var (tag, length) := VarintIn(data[start..], MAX_VARINT).value;
      && start + length <= |data|
      && FieldIn(data[start..]) ==
         if tag / 8 == 0 then None else FieldBody(tag / 8, tag % 8, length, data[start + length..])
  {
    hide VarintIn;
    if VarintIn(data[start..], MAX_VARINT).Some? {
      var (tag, length) := VarintIn(data[start..], MAX_VARINT).value;
      assert data[start..][length..] == data[start + length..];
    }
  }

  lemma {:induction false} ListsConcat(a: seq<Field>, b: seq<Field>)
    ensures Varints(a + b) == Varints(a) + Varints(b) && Strings(a + b) == Strings(a) + Strings(b)
  {
    if b == [] {
      assert a + b == a;
    } else {
      assert (a + b)[..|a + b| - 1] == a + b[..|b| - 1];
      ListsConcat(a, b[..|b| - 1]);
    }
  }

  /** `fields`. */
  method Fields(data: seq<byte>) returns (varints: seq<(nat, nat)>, strings: seq<seq<byte>>)
    ensures varints == VarintsOf(data) && strings == StringsOf(data)
  {
    hide FieldIn, Varints, Strings;
    var pos := 0;
    ghost var parsed: seq<Field> := [];
    varints, strings := [], [];
    NoFields(FieldsIn(data));
    assert data[0..] == data;
    while pos < |data|
      invariant pos <= |data| ==> FieldsIn(data) == Prefixed(parsed, FieldsIn(data[pos..]))
      invariant pos <= |data| ==> varints == Varints(parsed) && strings == Strings(parsed)
      invariant pos > |data| ==> FieldsIn(data).None?
      decreases |data| - pos
    {
      var end, moreVarints, moreStrings := OneField(data, pos);
      PrefixedGrows(data, pos, parsed);
      if end.None? {
        return [], [];
      }
      if end.value <= |data| {
        ListsConcat(parsed, [FieldIn(data[pos..]).value.0]);
        parsed := parsed + [FieldIn(data[pos..]).value.0];
      }
      varints, strings := varints + moreVarints, strings + moreStrings;
      pos := end.value;
    }
    if pos != |data| {
      return [], [];
    }
    assert data[pos..] == [] && parsed + [] == parsed;
  }

  lemma NoFields(rest: Option<seq<Field>>)
    ensures Varints([]) == [] && Strings([]) == [] && Prefixed([], rest) == rest
  {
    if rest.Some? {
      assert [] + rest.value == rest.value;
    }
  }
}
