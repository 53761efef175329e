/** The proof fetcher's protobuf encoder and decoder and its gRPC framing. */
module Wire {
  import opened Base

  // ----- Varints -----

  /** Seven bits a byte, least significant first; every byte but the last has its top bit set. */
  function Varint(n: nat): (r: Bytes)
    ensures |r| >= 1
  {
    if n <= 0x7F then [n as byte] else [(0x80 + n % 128) as byte] + Varint(n / 128)
  }

  method EncodeVarint(value: nat) returns (result: Bytes)
    ensures result == Varint(value)
  {
    result := [];
    var rest := value;
    while rest > 0x7F
      invariant result + Varint(rest) == Varint(value)
    {
      result := result + [(0x80 + rest % 128) as byte];
      rest := rest / 128;
    }
    result := result + [rest as byte];
  }

  /** The number and the position after it; None where the data ends inside the number. */
  function VarintAt(data: Bytes, pos: nat): (r: Option<(nat, nat)>)
    ensures r.Some? ==> pos < r.value.1 <= |data|
    decreases |data| - pos
  {
    if pos >= |data| then None
    else if data[pos] < 0x80 then Some((data[pos] as nat, pos + 1))
    else
      match VarintAt(data, pos + 1)
      case None => None
      case Some((high, next)) => Some((data[pos] as nat % 128 + 128 * high, next))
  }

  lemma {:induction false} VarintInPlace(data: Bytes, pos: nat, n: nat)
    requires pos + |Varint(n)| <= |data| && data[pos..pos + |Varint(n)|] == Varint(n)
    ensures VarintAt(data, pos) == Some((n, pos + |Varint(n)|))
    decreases n
  {
    var size := |Varint(n)|;
    assert data[pos] == data[pos..pos + size][0];
    if n > 0x7F {
      assert Varint(n)[1..] == Varint(n / 128);
      assert data[pos + 1..pos + size] == data[pos..pos + size][1..];
      VarintInPlace(data, pos + 1, n / 128);
    }
  }

  /** Reading an encoded number gives the number back and stops exactly after it, whatever surrounds it. */
  lemma VarintRoundTrip(before: Bytes, n: nat, after: Bytes)
    ensures VarintAt(before + Varint(n) + after, |before|) == Some((n, |before| + |Varint(n)|))
  {
    var data := before + Varint(n) + after;
    Middle(before, Varint(n), after);
    VarintInPlace(data, |before|, n);
  }

  /** Every byte but the last has its top bit set, and the first one holds the lowest seven bits. */
  lemma {:induction false} VarintInBytes(n: nat)
    ensures forall i :: 0 <= i < |Varint(n)| - 1 ==> Varint(n)[i] >= 0x80
    ensures Varint(n)[|Varint(n)| - 1] < 0x80
    ensures Varint(n)[0] as nat % 128 == n % 128
    ensures |Varint(n)| > 1 ==> Varint(n)[1..] == Varint(n / 128)
    ensures |Varint(n)| > 1 <==> n >= 128
  {
    if n > 0x7F {
      VarintInBytes(n / 128);
      assert forall i :: 0 < i < |Varint(n)| ==> Varint(n)[i] == Varint(n / 128)[i - 1];
    }
  }

  // ----- The decoder -----

  datatype Value = Number(n: nat) | Raw(bytes: Bytes)

  type Field = (nat, Value)

  type FieldMap = map<nat, seq<Value>>

  /** A slice of at most n bytes: past the end it is cut short. */
  function Clip(data: Bytes, pos: nat, n: nat): Bytes {
    data[Min(pos, |data|)..Min(pos + n, |data|)]
  }

  /** A clipped slice is determined by its elements and by where it ends. */
  lemma ClipByIndex(data: Bytes, pos: nat, n: nat, out: Bytes)
    requires |out| == if pos + n <= |data| then n else if pos < |data| then |data| - pos else 0
    requires forall i :: 0 <= i < |out| ==> out[i] == data[pos + i]
    ensures out == Clip(data, pos, n)
  {
  }

  /** The value of a field with this wire type and the position after it; an unknown wire type has neither. */
  function ValueAt(data: Bytes, wireType: nat, pos: nat): (r: Option<(Value, nat)>)
    ensures r.Some? ==> pos <= r.value.1
  {
    if wireType == 0 then
      match VarintAt(data, pos) { case None => None case Some((n, next)) => Some((Number(n), next)) }
    else if wireType == 1 then
      Some((Raw(Clip(data, pos, 8)), pos + 8))
    else if wireType == 2 then
      match VarintAt(data, pos) {
        case None => None
        case Some((n, next)) => Some((Raw(Clip(data, next, n)), next + n))
      }
    else if wireType == 5 then
      Some((Raw(Clip(data, pos, 4)), pos + 4))
    else
      None
  }

  predicate KnownWireType(wireType: nat) {
    wireType in {0, 1, 2, 5}
  }

  /** The fields from a position to the end or to the first unknown wire type; None where a number is cut off. */
  function FieldsFrom(data: Bytes, pos: nat): Option<seq<Field>>
    decreases |data| - pos
  {
    if pos >= |data| then Some([])
    else
      match VarintAt(data, pos)
      case None => None
      case Some((tag, afterTag)) =>
        if !KnownWireType(tag % 8) then Some([])
        else
          match ValueAt(data, tag % 8, afterTag)
          case None => None
          case Some((value, next)) =>
            match FieldsFrom(data, next)
            case None => None
            case Some(rest) => Some([(tag / 8, value)] + rest)
  }

  /** The values of one field number, in order. */
  function ValuesOf(fields: seq<Field>, number: nat): seq<Value> {
    if fields == [] then [] else
      ValuesOf(fields[..|fields| - 1], number) +
        if fields[|fields| - 1].0 == number then [fields[|fields| - 1].1] else []
  }

  /** The map groups the values of a list of fields by number, in order, and has no other key. */
  ghost predicate Groups(m: FieldMap, fields: seq<Field>) {
    && (forall k :: k in m <==> ValuesOf(fields, k) != [])
    && (forall k :: k in m ==> m[k] == ValuesOf(fields, k))
  }

  lemma GroupsStep(m: FieldMap, fields: seq<Field>, field: Field)
    requires Groups(m, fields)
    ensures Groups(m[field.0 := (if field.0 in m then m[field.0] else []) + [field.1]], fields + [field])
  {
    assert (fields + [field])[..|fields|] == fields;
  }

  lemma ScaleStep(result: nat, scale: nat, b: byte, high: nat)
    ensures b < 0x80 ==> result + scale * (b as nat % 128) == result + scale * (b as nat)
    ensures result + scale * (b as nat % 128 + 128 * high)
         == (result + scale * (b as nat % 128)) + (scale * 128) * high
  {
  }

  class Decoder {
    const data: Bytes
    var pos: nat

    constructor (data: Bytes)
      ensures this.data == data && pos == 0
    {
      this.data := data;
      pos := 0;
    }

    /** None stands for the index error past the end of the data. */
    method ReadByte() returns (r: Option<byte>)
      modifies this
      ensures r == if old(pos) < |data| then Some(data[old(pos)]) else None
      ensures pos == if r.Some? then old(pos) + 1 else old(pos)
    {
      if pos >= |data| {
        return None;
      }
      r := Some(data[pos]);
      pos := pos + 1;
    }

    /** `scale` is two to the current shift; the accumulated bits lie below it, so or-ing is adding. */
    method ReadVarint() returns (r: Option<nat>)
      modifies this
      ensures r.Some? <==> VarintAt(data, old(pos)).Some?
      ensures r.Some? ==> VarintAt(data, old(pos)) == Some((r.value, pos))
      ensures old(pos) <= pos
    {
      var result: nat, scale: nat := 0, 1;
      var more := true;
      while more
        invariant old(pos) <= pos && scale > 0
        invariant var whole := VarintAt(data, old(pos));
                  if more then
                    match VarintAt(data, pos) {
                      case None => whole.None?
                      case Some((high, next)) => whole == Some((result + scale * high, next))
                    }
                  else whole == Some((result, pos))
        decreases |data| - pos, more
      {
        var b := ReadByte();
        if b.None? {
          return None;
        }
        ghost var high := VarintAt(data, pos);
        ScaleStep(result, scale, b.value, if high.Some? then high.value.0 else 0);
        result := result + scale * (b.value as nat % 128);
        scale := scale * 128;
        more := b.value >= 0x80;
      }
      return Some(result);
    }

    /** The next n bytes, or the fewer that are left; the position moves by n all the same. */
    method ReadBytes(n: nat) returns (out: Bytes)
      modifies this
      ensures |out| == if old(pos) + n <= |data| then n else if old(pos) < |data| then |data| - old(pos) else 0
      ensures forall i :: 0 <= i < |out| ==> out[i] == data[old(pos) + i]
      ensures pos == old(pos) + n
    {
      out := Clip(data, pos, n);
      pos := pos + n;
    }

    /** One value; None for the error inside it. */
    method ReadValue(wireType: nat) returns (r: Option<Value>)
      requires KnownWireType(wireType)
      modifies this
      ensures r.Some? <==> ValueAt(data, wireType, old(pos)).Some?
      ensures r.Some? ==> ValueAt(data, wireType, old(pos)) == Some((r.value, pos))
      ensures old(pos) <= pos
    {
      if wireType == 0 {
        var n := ReadVarint();
        if n.None? { return None; }
        return Some(Number(n.value));
      }
      var length: nat := 8;
      if wireType == 5 {
        length := 4;
      } else if wireType == 2 {
        var n := ReadVarint();
        if n.None? { return None; }
        length := n.value;
      }
      ghost var start := pos;
      var bytes := ReadBytes(length);
      ClipByIndex(data, start, length, bytes);
      return Some(Raw(bytes));
    }

    /** Every iteration consumes at least the byte of a tag, so the loop ends. */
    method DecodeAllFields() returns (r: Option<FieldMap>)
      modifies this
      ensures r.Some? <==> FieldsFrom(data, old(pos)).Some?
      ensures r.Some? ==> Groups(r.value, FieldsFrom(data, old(pos)).value)
    {
      var fields: FieldMap := map[];
      ghost var done: seq<Field> := [];
      assert forall rest :: done + rest == rest;
      while pos < |data|
        invariant old(pos) <= pos
        invariant Groups(fields, done)
        invariant match FieldsFrom(data, pos) {
                    case None => FieldsFrom(data, old(pos)).None?
                    case Some(rest) => FieldsFrom(data, old(pos)) == Some(done + rest)
                  }
        decreases |data| - pos
      {
        var tag := ReadVarint();
        if tag.None? {
          return None;
        }
        if !KnownWireType(tag.value % 8) {
          assert done + [] == done;
          return Some(fields);
        }
        var value := ReadValue(tag.value % 8);
        if value.None? {
          return None;
        }
        var number := tag.value / 8;
        GroupsStep(fields, done, (number, value.value));
        fields := fields[number := (if number in fields then fields[number] else []) + [value.value]];
        ghost var before := done;
        done := done + [(number, value.value)];
        assert forall rest :: before + ([(number, value.value)] + rest) == done + rest;
      }
      assert done + [] == done;
      return Some(fields);
    }
  }

  // ----- Encoded fields -----

  /** Wire type 0. */
  function VarintField(number: nat, value: nat): Bytes {
    Varint(number * 8) + Varint(value)
  }

  /** The request for proofs: status, limit and page. */
  function FilteredRequest(status: nat, limit: nat, page: nat): Bytes {
    VarintField(2, status) + VarintField(10, limit) + VarintField(11, page)
  }

  /** The request with the tool's own defaults. */
  lemma DefaultRequest()
    ensures FilteredRequest(3, 100, 1) == [0x10, 3, 0x50, 100, 0x58, 1]
  {
    assert VarintField(2, 3) == [0x10] + [3] && VarintField(10, 100) == [0x50] + [100];
    assert VarintField(11, 1) == [0x58] + [1];
  }

  /** What a sender can put into a field, by wire type: a number, eight bytes, any bytes, or four bytes. */
  datatype Sent = SentNumber(n: nat) | SentEight(bytes: Bytes) | SentBytes(bytes: Bytes) | SentFour(bytes: Bytes)

  predicate WellSent(s: Sent) {
    match s
    case SentEight(bytes) => |bytes| == 8
    case SentFour(bytes) => |bytes| == 4
    case _ => true
  }

  function WireType(s: Sent): nat {
    match s
    case SentNumber(_) => 0
    case SentEight(_) => 1
    case SentBytes(_) => 2
    case SentFour(_) => 5
  }

  function Payload(s: Sent): Bytes {
    match s
    case SentNumber(n) => Varint(n)
    case SentBytes(bytes) => Varint(|bytes|) + bytes
    case _ => s.bytes
  }

  function Received(s: Sent): Value {
    if s.SentNumber? then Number(s.n) else Raw(s.bytes)
  }

  type SentField = (nat, Sent)

  function EncodeField(field: SentField): Bytes {
    Varint(field.0 * 8 + WireType(field.1)) + Payload(field.1)
  }

  function EncodeFields(fields: seq<SentField>): Bytes {
    if fields == [] then [] else EncodeField(fields[0]) + EncodeFields(fields[1..])
  }

  function AsReceived(fields: seq<SentField>): seq<Field> {
    if fields == [] then [] else [(fields[0].0, Received(fields[0].1))] + AsReceived(fields[1..])
  }

  lemma TagParts(number: nat, wireType: nat)
    requires wireType < 8
    ensures (number * 8 + wireType) % 8 == wireType && (number * 8 + wireType) / 8 == number
  {
  }

  lemma FieldHead(data: Bytes, pos: nat, field: SentField, afterTag: nat, next: nat)
    requires VarintAt(data, pos) == Some((field.0 * 8 + WireType(field.1), afterTag))
    requires ValueAt(data, WireType(field.1), afterTag) == Some((Received(field.1), next))
    requires FieldsFrom(data, next).Some?
    ensures FieldsFrom(data, pos) == Some([(field.0, Received(field.1))] + FieldsFrom(data, next).value)
  {
    TagParts(field.0, WireType(field.1));
  }

  /** One encoded number at the start of the remaining data. */
  lemma VarintAhead(data: Bytes, pos: nat, n: nat, rest: Bytes) returns (next: nat)
    requires pos <= |data| && data[pos..] == Varint(n) + rest
    ensures next <= |data| && data[next..] == rest
    ensures VarintAt(data, pos) == Some((n, next))
  {
    next := pos + |Varint(n)|;
    assert data[pos..next] == data[pos..][..|Varint(n)|];
    assert data[next..] == data[pos..][|Varint(n)|..];
    VarintInPlace(data, pos, n);
  }

  lemma BytesAhead(data: Bytes, pos: nat, bytes: Bytes, rest: Bytes) returns (next: nat)
    requires pos <= |data| && data[pos..] == bytes + rest
    ensures next == pos + |bytes| <= |data| && data[next..] == rest
    ensures Clip(data, pos, |bytes|) == bytes
  {
    next := pos + |bytes|;
    assert data[pos..next] == data[pos..][..|bytes|];
    assert data[next..] == data[pos..][|bytes|..];
  }

  lemma SizedAhead(data: Bytes, pos: nat, bytes: Bytes, rest: Bytes) returns (next: nat)
    requires pos <= |data| && data[pos..] == Varint(|bytes|) + bytes + rest
    ensures next <= |data| && data[next..] == rest
    ensures ValueAt(data, 2, pos) == Some((Raw(bytes), next))
  {
    Associative(Varint(|bytes|), bytes, rest);
    var start := VarintAhead(data, pos, |bytes|, bytes + rest);
    next := BytesAhead(data, start, bytes, rest);
  }

  /** The value of one encoded field at the start of the remaining data. */
  lemma PayloadAhead(data: Bytes, pos: nat, s: Sent, rest: Bytes) returns (next: nat)
    requires WellSent(s) && pos <= |data| && data[pos..] == Payload(s) + rest
    ensures next <= |data| && data[next..] == rest
    ensures ValueAt(data, WireType(s), pos) == Some((Received(s), next))
  {
    match s
    case SentNumber(n) => next := VarintAhead(data, pos, n, rest);
    case SentBytes(bytes) => next := SizedAhead(data, pos, bytes, rest);
    case _ => next := BytesAhead(data, pos, s.bytes, rest);
  }

  /** One encoded field at the start of the remaining data. */
  lemma FieldAhead(data: Bytes, pos: nat, field: SentField, rest: Bytes) returns (afterTag: nat, next: nat)
    requires WellSent(field.1) && pos <= |data| && data[pos..] == EncodeField(field) + rest
    ensures next <= |data| && data[next..] == rest
    ensures VarintAt(data, pos) == Some((field.0 * 8 + WireType(field.1), afterTag))
    ensures ValueAt(data, WireType(field.1), afterTag) == Some((Received(field.1), next))
  {
    var tag := Varint(field.0 * 8 + WireType(field.1));
    Associative(tag, Payload(field.1), rest);
    afterTag := VarintAhead(data, pos, field.0 * 8 + WireType(field.1), Payload(field.1) + rest);
    next := PayloadAhead(data, afterTag, field.1, rest);
  }

  /** The bytes begin with the tag of a field of a wire type that is not understood. */
  predicate StartsUnknown(tail: Bytes, number: nat, wireType: nat, rest: Bytes) {
    (wireType == 3 || wireType == 4 || wireType == 6 || wireType == 7) && tail == Varint(number * 8 + wireType) + rest
  }

  /** What ends the fields: nothing more, or a field that is not understood. */
  ghost predicate EndsFields(tail: Bytes) {
    tail == [] || exists number: nat, wireType: nat, rest :: StartsUnknown(tail, number, wireType, rest)
  }

  lemma UnknownStops(data: Bytes, pos: nat, number: nat, wireType: nat, next: nat)
    requires VarintAt(data, pos) == Some((number * 8 + wireType, next)) && wireType < 8 && !KnownWireType(wireType)
    ensures FieldsFrom(data, pos) == Some([])
  {
    TagParts(number, wireType);
  }

  lemma FieldsEnd(data: Bytes, pos: nat, tail: Bytes)
    requires pos <= |data| && data[pos..] == tail && EndsFields(tail)
    ensures FieldsFrom(data, pos) == Some([])
  {
    if tail != [] {
      var number: nat, wireType: nat, rest :| StartsUnknown(tail, number, wireType, rest);
      var next := VarintAhead(data, pos, number * 8 + wireType, rest);
      UnknownStops(data, pos, number, wireType, next);
    }
  }

  lemma {:induction false} FieldsInPlace(data: Bytes, pos: nat, fields: seq<SentField>, tail: Bytes)
    requires forall i :: 0 <= i < |fields| ==> WellSent(fields[i].1)
    requires pos <= |data| && data[pos..] == EncodeFields(fields) + tail && EndsFields(tail)
    ensures FieldsFrom(data, pos) == Some(AsReceived(fields))
    decreases fields
  {
    if fields == [] {
      assert [] + tail == tail;
      FieldsEnd(data, pos, tail);
    } else {
      Associative(EncodeField(fields[0]), EncodeFields(fields[1..]), tail);
      var afterTag, next := FieldAhead(data, pos, fields[0], EncodeFields(fields[1..]) + tail);
      FieldsInPlace(data, next, fields[1..], tail);
      FieldHead(data, pos, fields[0], afterTag, next);
    }
  }

  /**
   * Decoding concatenated fields of every wire type gives their values, in order, up to the end or to a field that is
   * not understood; the decoder groups them by number.
   */
  lemma FieldsRoundTrip(fields: seq<SentField>, tail: Bytes)
    requires EndsFields(tail) && forall i :: 0 <= i < |fields| ==> WellSent(fields[i].1)
    ensures FieldsFrom(EncodeFields(fields) + tail, 0) == Some(AsReceived(fields))
  {
    FieldsInPlace(EncodeFields(fields) + tail, 0, fields, tail);
  }

  lemma ThreeFields(a: SentField, b: SentField, c: SentField)
    ensures EncodeFields([a, b, c]) + [] == EncodeField(a) + EncodeField(b) + EncodeField(c)
    ensures AsReceived([a, b, c]) == [(a.0, Received(a.1)), (b.0, Received(b.1)), (c.0, Received(c.1))]
  {
    assert [a, b, c][1..] == [b, c] && [b, c][1..] == [c] && |[c][1..]| == 0;
    assert EncodeFields([c]) == EncodeField(c) + [];
    assert EncodeFields([b, c]) == EncodeField(b) + EncodeFields([c]);
    assert AsReceived([c]) == [(c.0, Received(c.1))] + [];
    assert AsReceived([b, c]) == [(b.0, Received(b.1))] + AsReceived([c]);
  }

  lemma NumberField(number: nat, value: nat)
    ensures EncodeField((number, SentNumber(value))) == VarintField(number, value)
  {
  }

  lemma ThreeRoundTrip(a: SentField, b: SentField, c: SentField)
    requires WellSent(a.1) && WellSent(b.1) && WellSent(c.1)
    ensures FieldsFrom(EncodeField(a) + EncodeField(b) + EncodeField(c), 0)
         == Some([(a.0, Received(a.1)), (b.0, Received(b.1)), (c.0, Received(c.1))])
  {
    ThreeFields(a, b, c);
    FieldsRoundTrip([a, b, c], []);
  }

  lemma RequestRoundTrip(status: nat, limit: nat, page: nat)
    ensures FieldsFrom(FilteredRequest(status, limit, page), 0)
         == Some([(2, Number(status)), (10, Number(limit)), (11, Number(page))])
  {
    NumberField(2, status);
    NumberField(10, limit);
    NumberField(11, page);
    ThreeRoundTrip((2, SentNumber(status)), (10, SentNumber(limit)), (11, SentNumber(page)));
  }

  // ----- gRPC frames -----

  function Be(n: nat, k: nat): (b: Bytes)
    ensures |b| == k
  {
    if k == 0 then [] else Be(n / 256, k - 1) + [(n % 256) as byte]
  }

  function FromBe(b: Bytes): nat {
    if b == [] then 0 else 256 * FromBe(b[..|b| - 1]) + b[|b| - 1] as nat
  }

  lemma {:induction false} FromBeOfBe(n: nat, k: nat)
    requires n < Range(k)
    ensures FromBe(Be(n, k)) == n
  {
    if k > 0 {
      FromBeOfBe(n / 256, k - 1);
      assert Be(n, k)[..k - 1] == Be(n / 256, k - 1);
    }
  }

  lemma BigEndian(b: Bytes)
    requires |b| == 4
    ensures FromBe(b) == 0x100_0000 * b[0] as nat + 0x1_0000 * b[1] as nat + 0x100 * b[2] as nat + b[3] as nat
  {
    var three, two, one := b[..3], b[..2], b[..1];
    assert three[..2] == two && two[..1] == one && one[..0] == [];
    assert FromBe(one) == b[0] as nat;
    assert FromBe(two) == 256 * FromBe(one) + b[1] as nat;
    assert FromBe(three) == 256 * FromBe(two) + b[2] as nat;
    assert FromBe(b) == 256 * FromBe(three) + b[3] as nat;
  }

  const FRAME_HEADER := 5

  /** A flag, the length in big-endian order, the message. */
  function FlaggedFrame(flag: byte, message: Bytes): Bytes {
    [flag] + Be(|message|, 4) + message
  }

  /** No compression. */
  function Frame(message: Bytes): Bytes {
    FlaggedFrame(0, message)
  }

  /** The frame that is sent, byte by byte. */
  lemma FrameInBytes(message: Bytes)
    requires |message| < U32_LIMIT
    ensures var f := Frame(message);
            && |f| == 5 + |message| && f[0] == 0 && f[5..] == message
            && |message| == 0x100_0000 * f[1] as nat + 0x1_0000 * f[2] as nat + 0x100 * f[3] as nat + f[4] as nat
  {
    var f, length := Frame(message), Be(|message|, 4);
    Ranges();
    FromBeOfBe(|message|, 4);
    assert f[1] == length[0] && f[2] == length[1] && f[3] == length[2] && f[4] == length[3];
    BigEndian(length);
  }

  type Framed = (byte, Bytes)

  function Frames(frames: seq<Framed>): Bytes {
    if frames == [] then [] else FlaggedFrame(frames[0].0, frames[0].1) + Frames(frames[1..])
  }

  /** The messages without a flag. */
  function Kept(frames: seq<Framed>): seq<Bytes> {
    if frames == [] then [] else (if frames[0].0 == 0 then [frames[0].1] else []) + Kept(frames[1..])
  }

  function Plain(messages: seq<Bytes>): (r: seq<Framed>)
    ensures |r| == |messages|
  {
    seq(|messages|, i requires 0 <= i < |messages| => (0, messages[i]))
  }

  /** A trailer frame ends the parse; a message with a non-zero flag is skipped; an incomplete last one is cut short. */
  function MessagesFrom(raw: Bytes, pos: nat): seq<Bytes>
    decreases |raw| - pos
  {
    if pos + FRAME_HEADER > |raw| then []
    else
      var flag := raw[pos];
      var length := FromBe(raw[pos + 1..pos + FRAME_HEADER]);
      if flag >= 0x80 then []
      else
        (if flag == 0 then [Clip(raw, pos + FRAME_HEADER, length)] else [])
          + MessagesFrom(raw, pos + FRAME_HEADER + length)
  }

  /** One frame's message, if it is kept, and the rest. */
  lemma ParseStep(raw: Bytes, pos: nat, frames: seq<Bytes>, rest: seq<Bytes>, message: Bytes, next: nat)
    requires pos + FRAME_HEADER <= |raw| && raw[pos] < 0x80 && rest == MessagesFrom(raw, pos)
    requires next == pos + FRAME_HEADER + FromBe(raw[pos + 1..pos + FRAME_HEADER])
    requires message == Clip(raw, pos + FRAME_HEADER, next - pos - FRAME_HEADER)
    ensures frames + rest == (if raw[pos] == 0 then frames + [message] else frames) + MessagesFrom(raw, next)
  {
    Associative(frames, [message], MessagesFrom(raw, next));
  }

  method ParseFrames(raw: Bytes) returns (frames: seq<Bytes>)
    ensures frames == MessagesFrom(raw, 0)
  {
    frames := [];
    var pos: nat := 0;
    ghost var rest := MessagesFrom(raw, 0);
    while pos + FRAME_HEADER <= |raw|
      invariant rest == MessagesFrom(raw, pos)
      invariant frames + rest == MessagesFrom(raw, 0)
      decreases |raw| - pos
    {
      var flag := raw[pos];
      var length := FromBe(raw[pos + 1..pos + FRAME_HEADER]);
      ghost var start := pos;
      pos := pos + FRAME_HEADER;
      if flag >= 0x80 {
        break;
      }
      var message := Clip(raw, pos, length);
      pos := pos + length;
      ParseStep(raw, start, frames, rest, message, pos);
      if flag == 0 {
        frames := frames + [message];
      }
      rest := MessagesFrom(raw, pos);
    }
    assert frames + [] == frames;
  }

  lemma MessageHead(raw: Bytes, pos: nat, length: nat)
    requires pos + FRAME_HEADER + length <= |raw|
    requires raw[pos] < 0x80 && FromBe(raw[pos + 1..pos + FRAME_HEADER]) == length
    ensures MessagesFrom(raw, pos)
         == (if raw[pos] == 0 then [raw[pos + FRAME_HEADER..pos + FRAME_HEADER + length]] else [])
              + MessagesFrom(raw, pos + FRAME_HEADER + length)
  {
  }

  lemma FrameSlices(s: Bytes, flag: byte, length: Bytes, message: Bytes, rest: Bytes)
    requires s == [flag] + length + message + rest && |length| == FRAME_HEADER - 1
    ensures |s| >= FRAME_HEADER + |message| && s[0] == flag && s[1..FRAME_HEADER] == length
    ensures s[FRAME_HEADER..FRAME_HEADER + |message|] == message && s[FRAME_HEADER + |message|..] == rest
  {
  }

  lemma FrameParts(raw: Bytes, pos: nat, flag: byte, message: Bytes, rest: Bytes)
    requires pos <= |raw| && raw[pos..] == FlaggedFrame(flag, message) + rest && |message| < U32_LIMIT
    ensures |raw| >= pos + FRAME_HEADER + |message| && raw[pos] == flag
    ensures FromBe(raw[pos + 1..pos + FRAME_HEADER]) == |message|
    ensures raw[pos + FRAME_HEADER..pos + FRAME_HEADER + |message|] == message
    ensures raw[pos + FRAME_HEADER + |message|..] == rest
  {
    var s, length: Bytes := raw[pos..], Be(|message|, 4);
    Ranges();
    FromBeOfBe(|message|, 4);
    FrameSlices(s, flag, length, message, rest);
    assert raw[pos] == s[0];
    assert raw[pos + 1..pos + FRAME_HEADER] == s[1..FRAME_HEADER];
    assert raw[pos + FRAME_HEADER..pos + FRAME_HEADER + |message|] == s[FRAME_HEADER..FRAME_HEADER + |message|];
    assert raw[pos + FRAME_HEADER + |message|..] == s[FRAME_HEADER + |message|..];
  }

  lemma FrameHead(raw: Bytes, pos: nat, flag: byte, message: Bytes, rest: Bytes) returns (next: nat)
    requires pos <= |raw| && raw[pos..] == FlaggedFrame(flag, message) + rest && |message| < U32_LIMIT && flag < 0x80
    ensures next <= |raw| && raw[next..] == rest
    ensures MessagesFrom(raw, pos) == (if flag == 0 then [message] else []) + MessagesFrom(raw, next)
  {
    next := pos + FRAME_HEADER + |message|;
    FrameParts(raw, pos, flag, message, rest);
    MessageHead(raw, pos, |message|);
  }

  lemma FramesHead(frames: seq<Framed>, tail: Bytes)
    requires frames != []
    ensures Frames(frames) + tail == FlaggedFrame(frames[0].0, frames[0].1) + (Frames(frames[1..]) + tail)
  {
    Associative(FlaggedFrame(frames[0].0, frames[0].1), Frames(frames[1..]), tail);
  }

  /** The first of several frames at a position: its message if it has no flag, then whatever the rest parses to. */
  lemma FirstFrame(raw: Bytes, pos: nat, frames: seq<Framed>, tail: Bytes) returns (next: nat)
    requires frames != [] && frames[0].0 < 0x80 && |frames[0].1| < U32_LIMIT
    requires pos <= |raw| && raw[pos..] == Frames(frames) + tail
    ensures next <= |raw| && raw[next..] == Frames(frames[1..]) + tail
    ensures MessagesFrom(raw, pos) == (if frames[0].0 == 0 then [frames[0].1] else []) + MessagesFrom(raw, next)
  {
    FramesHead(frames, tail);
    next := FrameHead(raw, pos, frames[0].0, frames[0].1, Frames(frames[1..]) + tail);
  }

  /** What ends the messages: less than a frame header, or a trailer frame. */
  predicate EndsFrames(tail: Bytes) {
    |tail| < FRAME_HEADER || tail[0] >= 0x80
  }

  lemma NoMoreFrames(raw: Bytes, pos: nat, tail: Bytes)
    requires EndsFrames(tail) && pos <= |raw| && raw[pos..] == [] + tail
    ensures MessagesFrom(raw, pos) == []
  {
    assert raw[pos..] == tail;
    assert tail != [] ==> raw[pos] == raw[pos..][0];
  }

  /** Frames that a response can hold before its trailer. */
  predicate WellFramed(frames: seq<Framed>) {
    forall i :: 0 <= i < |frames| ==> frames[i].0 < 0x80 && |frames[i].1| < U32_LIMIT
  }

  lemma {:induction false} FramesInPlace(raw: Bytes, pos: nat, frames: seq<Framed>, tail: Bytes)
    requires WellFramed(frames) && EndsFrames(tail) && pos <= |raw| && raw[pos..] == Frames(frames) + tail
    ensures MessagesFrom(raw, pos) == Kept(frames)
    decreases frames
  {
    if frames == [] {
      NoMoreFrames(raw, pos, tail);
    } else {
      var next := FirstFrame(raw, pos, frames, tail);
      FramesInPlace(raw, next, frames[1..], tail);
    }
  }

  lemma {:induction false} PlainKept(messages: seq<Bytes>)
    ensures Kept(Plain(messages)) == messages
    decreases messages
  {
    if messages != [] {
      assert Plain(messages)[1..] == Plain(messages[1..]);
      PlainKept(messages[1..]);
    }
  }

  /**
   * Concatenated frames, with a trailer frame or less than a frame header after them, parse to the messages of those
   * without a flag; if they were all sent without compression, to all of their messages.
   */
  lemma FramesRoundTrip(frames: seq<Framed>, tail: Bytes)
    requires WellFramed(frames) && EndsFrames(tail)
    ensures MessagesFrom(Frames(frames) + tail, 0) == Kept(frames)
    ensures forall messages :: frames == Plain(messages) ==> MessagesFrom(Frames(frames) + tail, 0) == messages
  {
    FramesInPlace(Frames(frames) + tail, 0, frames, tail);
    forall messages | frames == Plain(messages) ensures Kept(frames) == messages {
      PlainKept(messages);
    }
  }

  /** A last frame that is cut off gives the part of its message that is there. */
  lemma CutFrame(raw: Bytes, pos: nat, length: nat, part: Bytes)
    requires |part| < length < U32_LIMIT && pos <= |raw| && raw[pos..] == [0] + Be(length, 4) + part
    ensures MessagesFrom(raw, pos) == [part]
  {
    var s: Bytes := raw[pos..];
    Ranges();
    FromBeOfBe(length, 4);
    assert s == [0] + Be(length, 4) + part + [];
    FrameSlices(s, 0, Be(length, 4), part, []);
    assert raw[pos] == s[0] && raw[pos + 1..pos + FRAME_HEADER] == s[1..FRAME_HEADER];
    assert raw[pos + FRAME_HEADER..] == s[FRAME_HEADER..] == part;
    assert Clip(raw, pos + FRAME_HEADER, length) == part;
  }
}
