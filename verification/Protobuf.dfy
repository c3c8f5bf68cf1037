/** The hand-written protobuf wire reader: varints, fields and whole messages. */
module Protobuf {
  import opened Words
  import opened Wrappers
  import opened ByteStrings

  datatype WireError = InvalidProtobuf | TruncatedProtobuf
  datatype FieldValue = Varint(number: nat) | Blob(bytes: Bytes) | Ignored
  datatype Field = Field(tag: nat, value: FieldValue)

  const VARINT_BYTES: nat := 10

  function Pow128(n: nat): (p: nat)
    ensures p >= 1
  {
    if n == 0 then 1 else 128 * Pow128(n - 1)
  }

  // ---- Varints ----

  /** A seven-bit group in front of what follows it. */
  function Prepend(low: nat, r: Result<Parsed<nat>, WireError>): Result<Parsed<nat>, WireError> {
    match r
    case Err(e) => Err(e)
    case Ok(p) => Ok(Parsed(low + 128 * p.item, p.next))
  }

  /**
   The rest, at `cursor`, of a varint that began at `start`: seven bits a byte, least significant
   first.  The tenth byte may only be 0 or 1.
   */
  function VarintFrom(input: Bytes, cursor: nat, start: nat): (r: Result<Parsed<nat>, WireError>)
    requires start <= cursor < start + VARINT_BYTES
    ensures r.Ok? ==> cursor < r.value.next <= |input|
    decreases start + VARINT_BYTES - cursor
  {
    if cursor >= |input| then Err(TruncatedProtobuf)
    else if cursor == start + 9 && input[cursor] > 1 then Err(InvalidProtobuf)
    else if input[cursor] < 128 then Ok(Parsed(input[cursor], cursor + 1))
    else Prepend(input[cursor] - 128, VarintFrom(input, cursor + 1, start))
  }

  /** Ten groups with a one-bit last group never exceed the 64-bit range. */
  lemma {:induction false} VarintFits(input: Bytes, cursor: nat, start: nat)
    requires start <= cursor < start + VARINT_BYTES && VarintFrom(input, cursor, start).Ok?
    ensures VarintFrom(input, cursor, start).value.item < 2 * Pow128(start + 9 - cursor)
    decreases start + VARINT_BYTES - cursor
  {
    if cursor == start + 9 || input[cursor] < 128 {
    } else {
      assert Pow128(start + 9 - cursor) == 128 * Pow128(start + 8 - cursor);
      VarintFits(input, cursor + 1, start);
    }
  }

  lemma TenGroupsHold64Bits()
    ensures 2 * Pow128(9) == U64_MAX + 1
  {
    assert Pow128(3) == 2097152;
    assert Pow128(6) == 2097152 * 2097152;
    assert Pow128(9) == 2097152 * 2097152 * 2097152;
  }

  /** What is read as a varint is a 64-bit number. */
  lemma VarintIs64Bits(input: Bytes, cursor: nat)
    requires VarintFrom(input, cursor, cursor).Ok?
    ensures VarintFrom(input, cursor, cursor).value.item <= U64_MAX
  {
    VarintFits(input, cursor, cursor);
    TenGroupsHold64Bits();
  }

  /** The bytes from `cursor` up to `next` end a varint that began at `start`: all but the last carry the
      continuation bit, and a tenth byte is 0 or 1. */
  ghost predicate EndsVarint(input: Bytes, cursor: nat, next: nat, start: nat) {
    && cursor < next <= |input| && next <= start + 10
    && (forall k :: cursor <= k < next - 1 ==> input[k] >= 128)
    && input[next - 1] < (if next == start + 10 then 2 else 128)
  }

  /** The number in these bytes: seven bits a byte, the first byte least significant. */
  function Groups(input: Bytes, cursor: nat, next: nat): nat
    requires next <= |input|
    decreases next - cursor
  {
    if cursor >= next then 0 else input[cursor] % 128 + 128 * Groups(input, cursor + 1, next)
  }

  lemma {:induction false} VarintGives(input: Bytes, cursor: nat, start: nat)
    requires start <= cursor < start + VARINT_BYTES && VarintFrom(input, cursor, start).Ok?
    ensures var p := VarintFrom(input, cursor, start).value;
            EndsVarint(input, cursor, p.next, start) && p.item == Groups(input, cursor, p.next)
    decreases start + VARINT_BYTES - cursor
  {
    if input[cursor] < 128 {
      assert Groups(input, cursor + 1, cursor + 1) == 0;
    } else {
      VarintGives(input, cursor + 1, start);
    }
  }

  lemma {:induction false} VarintAccepts(input: Bytes, cursor: nat, start: nat, next: nat)
    requires start <= cursor < start + VARINT_BYTES && EndsVarint(input, cursor, next, start)
    ensures VarintFrom(input, cursor, start) == Ok(Parsed(Groups(input, cursor, next), next))
    decreases start + VARINT_BYTES - cursor
  {
    if cursor == next - 1 {
      assert Groups(input, next, next) == 0;
    } else {
      VarintAccepts(input, cursor + 1, start, next);
    }
  }

  /** What is accepted, exactly: a number is read from the bytes of a varint and from nothing else. */
  lemma VarintExactly(input: Bytes, cursor: nat, v: nat, next: nat)
    ensures VarintFrom(input, cursor, cursor) == Ok(Parsed(v, next)) <==>
            EndsVarint(input, cursor, next, cursor) && v == Groups(input, cursor, next)
  {
    if VarintFrom(input, cursor, cursor).Ok? {
      VarintGives(input, cursor, cursor);
    }
    if EndsVarint(input, cursor, next, cursor) {
      VarintAccepts(input, cursor, cursor, next);
    }
  }

  /** What is refused, exactly: input that ends inside a varint, or a tenth byte above 1. */
  lemma {:induction false} VarintErrors(input: Bytes, cursor: nat, start: nat)
    requires start <= cursor < start + VARINT_BYTES
    ensures VarintFrom(input, cursor, start) == Err(TruncatedProtobuf) <==>
            |input| < start + 10 && forall k :: cursor <= k < |input| ==> input[k] >= 128
    ensures VarintFrom(input, cursor, start) == Err(InvalidProtobuf) <==>
            && start + 10 <= |input| && input[start + 9] > 1
            && forall k :: cursor <= k < start + 9 ==> input[k] >= 128
    decreases start + VARINT_BYTES - cursor
  {
    if cursor < |input| && cursor < start + 9 && input[cursor] >= 128 {
      VarintErrors(input, cursor + 1, start);
    }
  }

  function EncodeVarint(v: nat): (bytes: Bytes)
    ensures |bytes| >= 1
  {
    if v < 128 then [v] else [v % 128 + 128] + EncodeVarint(v / 128)
  }

  lemma {:induction false} VarintRoundTrip(input: Bytes, cursor: nat, v: nat, start: nat)
    requires start <= cursor < start + VARINT_BYTES && v < 2 * Pow128(start + 9 - cursor)
    requires StandsAt(input, cursor, EncodeVarint(v))
    ensures VarintFrom(input, cursor, start) == Ok(Parsed(v, cursor + |EncodeVarint(v)|))
    decreases v
  {
    assert input[cursor] == EncodeVarint(v)[0];
    if v < 128 {
    } else {
      StandsSplit(input, cursor, [v % 128 + 128], EncodeVarint(v / 128));
      RestFits(v, start + 9 - cursor);
      VarintRoundTrip(input, cursor + 1, v / 128, start);
      VarintCons(input, cursor, v, start, cursor + |EncodeVarint(v)|);
    }
  }

  lemma RestFits(v: nat, groups: nat)
    requires 128 <= v < 2 * Pow128(groups)
    ensures groups >= 1 && v / 128 < 2 * Pow128(groups - 1)
  {
    assert groups >= 1 && Pow128(groups) == 128 * Pow128(groups - 1);
  }

  /** A group with its continuation bit, in front of a varint. */
  lemma VarintCons(input: Bytes, cursor: nat, v: nat, start: nat, next: nat)
    requires start <= cursor < start + 9 && v >= 128 && cursor < |input| && input[cursor] == v % 128 + 128
    requires VarintFrom(input, cursor + 1, start) == Ok(Parsed(v / 128, next))
    ensures VarintFrom(input, cursor, start) == Ok(Parsed(v, next))
  {
  }

  lemma VarintFromEncoded(input: Bytes, cursor: nat, v: nat)
    requires v <= U64_MAX && StandsAt(input, cursor, EncodeVarint(v))
    ensures VarintFrom(input, cursor, cursor) == Ok(Parsed(v, cursor + |EncodeVarint(v)|))
  {
    TenGroupsHold64Bits();
    VarintRoundTrip(input, cursor, v, cursor);
  }

  // ---- Fields ----

  function SkipFrom(input: Bytes, cursor: nat, length: nat): (r: Result<nat, WireError>)
    requires cursor <= |input|
    ensures r.Ok? ==> r.value == cursor + length <= |input|
  {
    if cursor + length > U64_MAX then Err(InvalidProtobuf)
    else if cursor + length > |input| then Err(TruncatedProtobuf)
    else Ok(cursor + length)
  }

  function ValueFrom(input: Bytes, cursor: nat, kind: nat): (r: Result<Parsed<FieldValue>, WireError>)
    requires cursor <= |input|
    ensures r.Ok? ==> cursor < r.value.next <= |input|
  {
    if kind == 0 then
      match VarintFrom(input, cursor, cursor)
      case Err(e) => Err(e)
      case Ok(p) => Ok(Parsed(Varint(p.item), p.next))
    else if kind == 1 || kind == 5 then
      match SkipFrom(input, cursor, if kind == 1 then 8 else 4)
      case Err(e) => Err(e)
      case Ok(next) => Ok(Parsed(Ignored, next))
    else if kind == 2 then
      match VarintFrom(input, cursor, cursor)
      case Err(e) => Err(e)
      case Ok(length) =>
        match SkipFrom(input, length.next, length.item)
        case Err(e) => Err(e)
        case Ok(next) => Ok(Parsed(Blob(input[length.next..next]), next))
    else
      Err(InvalidProtobuf)
  }

  function FieldFrom(input: Bytes, cursor: nat): (r: Result<Parsed<Field>, WireError>)
    requires cursor < |input|
    ensures r.Ok? ==> cursor < r.value.next <= |input|
  {
    match VarintFrom(input, cursor, cursor)
    case Err(e) => Err(e)
    case Ok(key) =>
      if key.item / 8 == 0 then Err(InvalidProtobuf)
      else
        match ValueFrom(input, key.next, key.item % 8)
        case Err(e) => Err(e)
        case Ok(p) => Ok(Parsed(Field(key.item / 8, p.item), p.next))
  }

  /** All fields from `cursor` to the end of the message, or the first wire error. */
  function FieldsFrom(input: Bytes, cursor: nat): Result<seq<Field>, WireError>
    requires cursor <= |input|
    decreases |input| - cursor
  {
    if cursor == |input| then Ok([])
    else
      match FieldFrom(input, cursor)
      case Err(e) => Err(e)
      case Ok(p) =>
        match FieldsFrom(input, p.next)
        case Err(e) => Err(e)
        case Ok(rest) => Ok([p.item] + rest)
  }

  /** The eight wire types behind a field key (its low three bits): a varint, 8 bytes to skip, bytes with a
      length, 4 bytes to skip, and four that are refused, as is a field number of zero. */
  lemma WireTypes(input: Bytes, cursor: nat, key: nat, start: nat)
    requires |input| <= U64_MAX && cursor < |input| && VarintFrom(input, cursor, cursor) == Ok(Parsed(key, start))
    ensures key < 8 || key % 8 in {3, 4, 6, 7} ==> FieldFrom(input, cursor) == Err(InvalidProtobuf)
    ensures key >= 8 && key % 8 == 1 ==>
              FieldFrom(input, cursor) ==
              if start + 8 <= |input| then Ok(Parsed(Field(key / 8, Ignored), start + 8)) else Err(PastEnd(start + 8))
    ensures key >= 8 && key % 8 == 5 ==>
              FieldFrom(input, cursor) ==
              if start + 4 <= |input| then Ok(Parsed(Field(key / 8, Ignored), start + 4)) else Err(PastEnd(start + 4))
    ensures key >= 8 && key % 8 == 0 ==>
              FieldFrom(input, cursor) ==
              match VarintFrom(input, start, start)
              case Err(e) => Err(e)
              case Ok(n) => Ok(Parsed(Field(key / 8, Varint(n.item)), n.next))
    ensures key >= 8 && key % 8 == 2 ==>
              match VarintFrom(input, start, start)
              case Err(e) => FieldFrom(input, cursor) == Err(e)
              case Ok(n) =>
                var end := n.next + n.item;
                FieldFrom(input, cursor) ==
                if end <= |input| then Ok(Parsed(Field(key / 8, Blob(input[n.next..end])), end)) else Err(PastEnd(end))
  {
    FieldByKind(input, cursor, key, start);
    SkipsWithin(input, start, 8);
    SkipsWithin(input, start, 4);
    if VarintFrom(input, start, start).Ok? {
      var n := VarintFrom(input, start, start).value;
      SkipsWithin(input, n.next, n.item);
    }
  }

  lemma FieldByKind(input: Bytes, cursor: nat, key: nat, start: nat)
    requires cursor < |input| && VarintFrom(input, cursor, cursor) == Ok(Parsed(key, start))
    ensures start <= |input|
    ensures FieldFrom(input, cursor) ==
            if key < 8 then Err(InvalidProtobuf)
            else
              match ValueFrom(input, start, key % 8)
              case Err(e) => Err(e)
              case Ok(p) => Ok(Parsed(Field(key / 8, p.item), p.next))
  {
  }

  /** Past the end of the input a field is truncated, past the 64-bit range invalid. */
  function PastEnd(end: nat): WireError { if end <= U64_MAX then TruncatedProtobuf else InvalidProtobuf }

  lemma SkipsWithin(input: Bytes, cursor: nat, length: nat)
    requires cursor <= |input| <= U64_MAX
    ensures SkipFrom(input, cursor, length) ==
            if cursor + length <= |input| then Ok(cursor + length) else Err(PastEnd(cursor + length))
  {
  }

  // ---- Messages survive encoding ----

  predicate Encodable(f: Field) {
    && 1 <= f.tag && 8 * f.tag + 7 <= U64_MAX
    && match f.value
       case Varint(n) => n <= U64_MAX
       case Blob(b) => true
       case Ignored => false
  }

  function EncodeValue(value: FieldValue): Bytes {
    match value
    case Varint(n) => EncodeVarint(n)
    case Blob(b) => EncodeVarint(|b|) + b
    case Ignored => []
  }

  function KindOf(value: FieldValue): nat { if value.Varint? then 0 else 2 }

  function EncodeField(f: Field): Bytes {
    EncodeVarint(8 * f.tag + KindOf(f.value)) + EncodeValue(f.value)
  }

  function EncodeFields(fs: seq<Field>): Bytes {
    if fs == [] then [] else EncodeField(fs[0]) + EncodeFields(fs[1..])
  }

  lemma VarintValue(input: Bytes, cursor: nat, n: nat, next: nat)
    requires cursor <= |input| && VarintFrom(input, cursor, cursor) == Ok(Parsed(n, next))
    ensures ValueFrom(input, cursor, 0) == Ok(Parsed(Varint(n), next))
  {
  }

  lemma BlobValue(input: Bytes, cursor: nat, b: Bytes, start: nat)
    requires cursor <= |input| <= U64_MAX && VarintFrom(input, cursor, cursor) == Ok(Parsed(|b|, start))
    requires StandsAt(input, start, b)
    ensures ValueFrom(input, cursor, 2) == Ok(Parsed(Blob(b), start + |b|))
  {
  }

  lemma ValueFromEncoded(input: Bytes, cursor: nat, value: FieldValue)
    requires |input| <= U64_MAX && StandsAt(input, cursor, EncodeValue(value))
    requires Encodable(Field(1, value))
    ensures ValueFrom(input, cursor, KindOf(value)) == Ok(Parsed(value, cursor + |EncodeValue(value)|))
  {
    if value.Varint? {
      VarintFromEncoded(input, cursor, value.number);
      VarintValue(input, cursor, value.number, cursor + |EncodeVarint(value.number)|);
    } else {
      var b := value.bytes;
      var start := cursor + |EncodeVarint(|b|)|;
      assert StandsAt(input, cursor, EncodeVarint(|b|)) && StandsAt(input, start, b) by {
        StandsSplit(input, cursor, EncodeVarint(|b|), b);
      }
      assert VarintFrom(input, cursor, cursor) == Ok(Parsed(|b|, start)) by {
        VarintFromEncoded(input, cursor, |b|);
      }
      BlobValue(input, cursor, b, start);
    }
  }

  lemma FieldOf(input: Bytes, cursor: nat, key: nat, start: nat, f: Field, next: nat)
    requires cursor < |input| && start <= |input|
    requires VarintFrom(input, cursor, cursor) == Ok(Parsed(key, start))
    requires 1 <= f.tag == key / 8 && KindOf(f.value) == key % 8
    requires ValueFrom(input, start, KindOf(f.value)) == Ok(Parsed(f.value, next))
    ensures FieldFrom(input, cursor) == Ok(Parsed(f, next))
  {
  }

  /** A key and a value, encoded one after the other, read back as the field. */
  lemma FieldFromParts(input: Bytes, cursor: nat, f: Field, key: nat, start: nat)
    requires |input| <= U64_MAX && Encodable(f) && key == 8 * f.tag + KindOf(f.value)
    requires start == cursor + |EncodeVarint(key)|
    requires StandsAt(input, cursor, EncodeVarint(key)) && StandsAt(input, start, EncodeValue(f.value))
    ensures cursor < |input| && FieldFrom(input, cursor) == Ok(Parsed(f, start + |EncodeValue(f.value)|))
  {
    var next := start + |EncodeValue(f.value)|;
    assert VarintFrom(input, cursor, cursor) == Ok(Parsed(key, start)) by {
      VarintFromEncoded(input, cursor, key);
    }
    assert ValueFrom(input, start, KindOf(f.value)) == Ok(Parsed(f.value, next)) by {
      ValueFromEncoded(input, start, f.value);
    }
    FieldOf(input, cursor, key, start, f, next);
  }

  lemma FieldFromEncoded(input: Bytes, cursor: nat, f: Field)
    requires |input| <= U64_MAX && StandsAt(input, cursor, EncodeField(f)) && Encodable(f)
    ensures cursor < |input| && FieldFrom(input, cursor) == Ok(Parsed(f, cursor + |EncodeField(f)|))
  {
    var key := 8 * f.tag + KindOf(f.value);
    FieldFromBytes(input, cursor, f, key, EncodeVarint(key), EncodeValue(f.value));
  }

  lemma FieldFromBytes(input: Bytes, cursor: nat, f: Field, key: nat, first: Bytes, second: Bytes)
    requires |input| <= U64_MAX && Encodable(f) && key == 8 * f.tag + KindOf(f.value)
    requires first == EncodeVarint(key) && second == EncodeValue(f.value) && StandsAt(input, cursor, first + second)
    ensures cursor < |input| && FieldFrom(input, cursor) == Ok(Parsed(f, cursor + |first + second|))
  {
    StandsSplit(input, cursor, first, second);
    FieldFromParts(input, cursor, f, key, cursor + |first|);
  }

  lemma FieldsCons(input: Bytes, cursor: nat, f: Field, next: nat, rest: seq<Field>)
    requires cursor < |input| && FieldFrom(input, cursor) == Ok(Parsed(f, next))
    requires FieldsFrom(input, next) == Ok(rest)
    ensures FieldsFrom(input, cursor) == Ok([f] + rest)
  {
  }

  lemma FirstFromBytes(input: Bytes, cursor: nat, f: Field, head: Bytes, tail: Bytes)
    requires Encodable(f) && head == EncodeField(f) && |input| <= U64_MAX && StandsAt(input, cursor, head + tail)
    ensures cursor < |input| && FieldFrom(input, cursor) == Ok(Parsed(f, cursor + |head|))
    ensures StandsAt(input, cursor + |head|, tail)
  {
    StandsSplit(input, cursor, head, tail);
    FieldFromEncoded(input, cursor, f);
  }

  /** The first field of an encoded message reads back, and the encoding of the others follows it. */
  lemma FirstFromEncoded(input: Bytes, cursor: nat, fs: seq<Field>) returns (next: nat)
    requires fs != [] && Encodable(fs[0])
    requires |input| <= U64_MAX && StandsAt(input, cursor, EncodeFields(fs)) && cursor + |EncodeFields(fs)| == |input|
    ensures cursor < |input| && FieldFrom(input, cursor) == Ok(Parsed(fs[0], next))
    ensures StandsAt(input, next, EncodeFields(fs[1..])) && next + |EncodeFields(fs[1..])| == |input|
  {
    var head, tail := EncodeField(fs[0]), EncodeFields(fs[1..]);
    assert EncodeFields(fs) == head + tail;
    next := cursor + |head|;
    FirstFromBytes(input, cursor, fs[0], head, tail);
  }

  lemma {:induction false} MessageRoundTrip(input: Bytes, cursor: nat, fs: seq<Field>)
    requires |input| <= U64_MAX && StandsAt(input, cursor, EncodeFields(fs)) && cursor + |EncodeFields(fs)| == |input|
    requires forall f :: f in fs ==> Encodable(f)
    ensures FieldsFrom(input, cursor) == Ok(fs)
    decreases fs
  {
    if fs == [] {
    } else {
      var next := FirstFromEncoded(input, cursor, fs);
      MessageRoundTrip(input, next, fs[1..]);
      FieldsCons(input, cursor, fs[0], next, fs[1..]);
      assert [fs[0]] + fs[1..] == fs;
    }
  }

  // ---- The reader ----

  function Times(a: nat, b: nat): nat { a * b }

  /** Complete a partial reading: what was read so far plus `unit` times what follows. */
  function Resume(r: Result<Parsed<nat>, WireError>, soFar: nat, unit: nat): Result<Parsed<nat>, WireError> {
    match r
    case Err(e) => Err(e)
    case Ok(p) => Ok(Parsed(soFar + Times(p.item, unit), p.next))
  }

  lemma ResumePrepend(r: Result<Parsed<nat>, WireError>, low: nat, soFar: nat, unit: nat)
    ensures Resume(Prepend(low, r), soFar, unit) == Resume(r, soFar + Times(low, unit), 128 * unit)
  {
    if r.Ok? {
      assert (low + 128 * r.value.item) * unit == low * unit + r.value.item * (128 * unit);
    }
  }

  method DecodeVarint(input: Bytes, start: nat) returns (r: Result<Parsed<nat>, WireError>)
    ensures r == VarintFrom(input, start, start)
  {
    var cursor := start;
    var value: nat := 0;
    var unit: nat := 1;
    var i := 0;
    while i < VARINT_BYTES
      invariant 0 <= i < VARINT_BYTES && cursor == start + i
      invariant VarintFrom(input, start, start) == Resume(VarintFrom(input, cursor, start), value, unit)
    {
      if cursor >= |input| {
        return Err(TruncatedProtobuf);
      }
      var byte := input[cursor];
      if i == 9 && byte > 1 {
        return Err(InvalidProtobuf);
      }
      if byte < 128 {
        return Ok(Parsed(value + Times(byte, unit), cursor + 1));
      }
      ResumePrepend(VarintFrom(input, cursor + 1, start), byte - 128, value, unit);
      value, unit := value + Times(byte - 128, unit), 128 * unit;
      cursor := cursor + 1;
      i := i + 1;
    }
    assert false;
    r := Err(InvalidProtobuf);
  }

  class ProtoReader {
    const input: Bytes
    var cursor: nat

    ghost predicate Valid()
      reads this
    {
      cursor <= |input| <= U64_MAX
    }

    constructor (input: Bytes)
      requires |input| <= U64_MAX
      ensures Valid() && this.input == input && cursor == 0
    {
      this.input, cursor := input, 0;
    }

    method ReadVarint() returns (r: Result<nat, WireError>)
      requires Valid()
      modifies `cursor
      ensures Valid()
      ensures match VarintFrom(input, old(cursor), old(cursor))
              case Err(e) => r == Err(e)
              case Ok(p) => r == Ok(p.item) && cursor == p.next
    {
      var p := DecodeVarint(input, cursor);
      if p.Err? {
        return Err(p.error);
      }
      cursor := p.value.next;
      r := Ok(p.value.item);
    }

    method Skip(length: nat) returns (r: Result<(), WireError>)
      requires Valid()
      modifies `cursor
      ensures Valid()
      ensures match SkipFrom(input, old(cursor), length)
              case Err(e) => r == Err(e)
              case Ok(next) => r == Ok(()) && cursor == next
    {
      if cursor + length > U64_MAX {
        return Err(InvalidProtobuf);
      }
      if cursor + length > |input| {
        return Err(TruncatedProtobuf);
      }
      cursor := cursor + length;
      r := Ok(());
    }

    method ReadValue(kind: nat) returns (r: Result<FieldValue, WireError>)
      requires Valid()
      modifies `cursor
      ensures Valid()
      ensures match ValueFrom(input, old(cursor), kind)
              case Err(e) => r == Err(e)
              case Ok(p) => r == Ok(p.item) && cursor == p.next
    {
      if kind == 0 {
        var n := ReadVarint();
        return if n.Ok? then Ok(Varint(n.value)) else Err(n.error);
      } else if kind == 1 {
        var skipped := Skip(8);
        return if skipped.Ok? then Ok(Ignored) else Err(skipped.error);
      } else if kind == 2 {
        var length := ReadVarint();
        if length.Err? {
          return Err(length.error);
        }
        var start := cursor;
        var taken := Skip(length.value);
        if taken.Err? {
          return Err(taken.error);
        }
        return Ok(Blob(input[start..cursor]));
      } else if kind == 5 {
        var skipped := Skip(4);
        return if skipped.Ok? then Ok(Ignored) else Err(skipped.error);
      }
      r := Err(InvalidProtobuf);
    }

    /** The next field of the message, if any is left. */
    method Next() returns (done: bool, r: Result<Field, WireError>)
      requires Valid()
      modifies `cursor
      ensures Valid()
      ensures done <==> old(cursor) == |input|
      ensures !done ==>
                match FieldFrom(input, old(cursor))
                case Err(e) => r == Err(e)
                case Ok(p) => r == Ok(p.item) && cursor == p.next
    {
      r := Err(InvalidProtobuf);
      if cursor == |input| {
        return true, r;
      }
      done := false;
      var key := ReadVarint();
      if key.Err? {
        return false, Err(key.error);
      }
      if key.value / 8 == 0 {
        return false, Err(InvalidProtobuf);
      }
      var value := ReadValue(key.value % 8);
      r := if value.Ok? then Ok(Field(key.value / 8, value.value)) else Err(value.error);
    }
  }
}
