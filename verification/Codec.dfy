/** The schema-directed codec: aggregates of scalars, enums and byte arrays to big-endian bytes and back. */
module Codec {
  import opened Bytes
  import opened Header

  // ---- Schemas and values ------------------------------------------------------------------------

  datatype IntWidth = W1 | W2 | W4 | W8

  /** A type that the codec supports; what reflection tells about it. */
  datatype Schema =
    | Bool
    | Int(width: IntWidth, signed: bool)
    | Float32
    | Float64
    | Enum(underlying: Schema)
    | ByteArray(size: nat)
    | Struct(members: seq<Schema>)

  /** Floats are their bit patterns; an enum is the value of its underlying type. */
  datatype Value =
    | BoolValue(b: bool)
    | IntValue(i: int)
    | Pattern(bits: nat)
    | BytesValue(bytes: seq<byte>)
    | StructValue(fields: seq<Value>)

  function Size(w: IntWidth): nat {
    match w case W1 => 1 case W2 => 2 case W4 => 4 case W8 => 8
  }

  /** The number of values of an integer of that width. */
  function Range(w: IntWidth): nat {
    match w case W1 => 0x100 case W2 => TWO16 case W4 => TWO32 case W8 => TWO32 * TWO32
  }

  predicate Fits(w: IntWidth, signed: bool, i: int) {
    if signed then -(Range(w) / 2) <= i < Range(w) / 2 else 0 <= i < Range(w)
  }

  predicate Typed(s: Schema, v: Value) {
    match s
    case Bool => v.BoolValue?
    case Int(w, signed) => v.IntValue? && Fits(w, signed, v.i)
    case Float32 => v.Pattern? && v.bits < Range(W4)
    case Float64 => v.Pattern? && v.bits < Range(W8)
    case Enum(u) => Typed(u, v)
    case ByteArray(n) => v.BytesValue? && |v.bytes| == n
    case Struct(ms) =>
      v.StructValue? && |v.fields| == |ms| && forall i :: 0 <= i < |ms| ==> Typed(ms[i], v.fields[i])
  }

  function Order(s: Schema): nat {
    if s.Struct? then |s.members| + 1 else 0
  }

  /** The size on the wire depends on the schema alone. */
  function Width(s: Schema): nat
    decreases s, Order(s)
  {
    match s
    case Bool => 1
    case Int(w, _) => Size(w)
    case Float32 => 4
    case Float64 => 8
    case Enum(u) => Width(u)
    case ByteArray(n) => n
    case Struct(ms) => Offset(s, |ms|)
  }

  /** Where member n starts, behind the members before it. */
  function Offset(s: Schema, n: nat): nat
    requires s.Struct? && n <= |s.members|
    decreases s, n
  {
    if n == 0 then 0 else Offset(s, n - 1) + Width(s.members[n - 1])
  }

  // ---- Scalars ------------------------------------------------------------------------------------

  function UintBytes(w: IntWidth, raw: nat): (r: seq<byte>)
    requires raw < Range(w)
    ensures |r| == Size(w)
  {
    match w
    case W1 => [raw]
    case W2 => BeU16(raw)
    case W4 => BeU32(raw)
    case W8 => BeU32(raw / TWO32) + BeU32(raw % TWO32)
  }

  function ReadUint(w: IntWidth, s: seq<byte>, at: nat): (raw: nat)
    requires at + Size(w) <= |s|
    ensures raw < Range(w)
  {
    match w
    case W1 => s[at]
    case W2 => ReadU16(s, at)
    case W4 => ReadU32(s, at)
    case W8 => ReadU32(s, at) * TWO32 + ReadU32(s, at + 4)
  }

  /** The conversion to the unsigned type of the same width. */
  function ToRaw(w: IntWidth, i: int): (raw: nat)
    ensures raw < Range(w)
  {
    i % Range(w)
  }

  /** The conversion back to the signed type. */
  function FromRaw(w: IntWidth, signed: bool, raw: nat): int
    requires raw < Range(w)
  {
    if signed && raw >= Range(w) / 2 then raw - Range(w) else raw
  }

  // ---- Encoding --------------------------------------------------------------------------------------

  function Encode(s: Schema, v: Value): (r: seq<byte>)
    requires Typed(s, v)
    ensures |r| == Width(s)
    decreases s, Order(s)
  {
    match s
    case Bool => [if v.b then 1 else 0]
    case Int(w, _) => UintBytes(w, ToRaw(w, v.i))
    case Float32 => UintBytes(W4, v.bits)
    case Float64 => UintBytes(W8, v.bits)
    case Enum(u) => Encode(u, v)
    case ByteArray(_) => v.bytes
    case Struct(ms) => EncodeFirst(s, v, |ms|)
  }

  function EncodeFirst(s: Schema, v: Value, n: nat): (r: seq<byte>)
    requires s.Struct? && Typed(s, v) && n <= |s.members|
    ensures |r| == Offset(s, n)
    decreases s, n
  {
    if n == 0 then [] else EncodeFirst(s, v, n - 1) + Encode(s.members[n - 1], v.fields[n - 1])
  }

  method SerializeField(out: array<byte>, at: nat, s: Schema, v: Value) returns (n: nat)
    requires Typed(s, v) && at + Width(s) <= out.Length
    modifies out
    ensures n == Width(s)
    ensures out[..] == Splice(old(out[..]), at, Encode(s, v))
    decreases s, Order(s)
  {
    hide UintBytes, Splice, EncodeFirst;
    match s
    case Enum(u) => n := SerializeField(out, at, u, v);
    case Bool => n := SerializePrimitive(out, at, s, v);
    case Int(_, _) => n := SerializePrimitive(out, at, s, v);
    case Float32 => n := SerializePrimitive(out, at, s, v);
    case Float64 => n := SerializePrimitive(out, at, s, v);
    case ByteArray(size) =>
      WriteBytes(out, at, v.bytes);
      n := size;
    case Struct(_) => n := SerializeMembers(out, at, s, v);
  }

  method SerializePrimitive(out: array<byte>, at: nat, s: Schema, v: Value) returns (n: nat)
    requires (s.Bool? || s.Int? || s.Float32? || s.Float64?) && Typed(s, v) && at + Width(s) <= out.Length
    modifies out
    ensures n == Width(s)
    ensures out[..] == Splice(old(out[..]), at, Encode(s, v))
  {
    hide Splice;
    match s
    case Bool =>
      WriteBytes(out, at, [if v.b then 1 else 0]);
      n := 1;
    case Int(w, _) => n := SerializeUint(out, at, w, ToRaw(w, v.i));
    case Float32 => n := SerializeUint(out, at, W4, v.bits);
    case Float64 => n := SerializeUint(out, at, W8, v.bits);
  }

  method SerializeUint(out: array<byte>, at: nat, w: IntWidth, raw: nat) returns (n: nat)
    requires raw < Range(w) && at + Size(w) <= out.Length
    modifies out
    ensures n == Size(w)
    ensures out[..] == Splice(old(out[..]), at, UintBytes(w, raw))
  {
    hide Splice, BeU16, BeU32;
    match w
    case W1 =>
      WriteBytes(out, at, [raw]);
      n := 1;
    case W2 =>
      WriteU16(out, at, raw);
      n := 2;
    case W4 =>
      WriteU32(out, at, raw);
      n := 4;
    case W8 =>
      ghost var was := out[..];
      WriteU32(out, at, raw / TWO32);
      WriteU32(out, at + 4, raw % TWO32);
      SpliceTwice(was, at, BeU32(raw / TWO32), BeU32(raw % TWO32));
      n := 8;
  }

  method SerializeMembers(out: array<byte>, at: nat, s: Schema, v: Value) returns (offset: nat)
    requires s.Struct? && Typed(s, v) && at + Width(s) <= out.Length
    modifies out
    ensures offset == Width(s)
    ensures out[..] == Splice(old(out[..]), at, Encode(s, v))
    decreases s, |s.members|
  {
    hide Splice, Encode;
    offset := 0;
    SpliceNothing(out[..], at);
    for i := 0 to |s.members|
      invariant offset == Offset(s, i) <= Width(s)
      invariant out[..] == Splice(old(out[..]), at, EncodeFirst(s, v, i))
    {
      OffsetsGrow(s, i + 1, |s.members|);
      var n := SerializeField(out, at + offset, s.members[i], v.fields[i]);
      SpliceTwice(old(out[..]), at, EncodeFirst(s, v, i), Encode(s.members[i], v.fields[i]));
      offset := offset + n;
    }
    EncodeStruct(s, v);
  }

  lemma EncodeStruct(s: Schema, v: Value)
    requires s.Struct? && Typed(s, v)
    ensures Encode(s, v) == EncodeFirst(s, v, |s.members|)
  {
  }

  lemma {:induction false} OffsetsGrow(s: Schema, i: nat, n: nat)
    requires s.Struct? && i <= n <= |s.members|
    ensures Offset(s, i) <= Offset(s, n)
    decreases n - i
  {
    if i < n {
      OffsetsGrow(s, i, n - 1);
    }
  }

  // ---- Decoding ------------------------------------------------------------------------------------------

  function Decode(s: Schema, b: seq<byte>, at: nat): Value
    requires at + Width(s) <= |b|
    decreases s, Order(s)
  {
    match s
    case Bool => BoolValue(b[at] != 0)
    case Int(w, signed) => IntValue(FromRaw(w, signed, ReadUint(w, b, at)))
    case Float32 => Pattern(ReadUint(W4, b, at))
    case Float64 => Pattern(ReadUint(W8, b, at))
    case Enum(u) => Decode(u, b, at)
    case ByteArray(n) => BytesValue(b[at..at + n])
    case Struct(ms) => StructValue(DecodeFirst(s, b, at, |ms|))
  }

  function DecodeFirst(s: Schema, b: seq<byte>, at: nat, n: nat): (vs: seq<Value>)
    requires s.Struct? && n <= |s.members| && at + Offset(s, n) <= |b|
    ensures |vs| == n
    decreases s, n
  {
    if n == 0 then []
    else DecodeFirst(s, b, at, n - 1) + [Decode(s.members[n - 1], b, at + Offset(s, n - 1))]
  }

  method DeserializeField(b: seq<byte>, at: nat, s: Schema) returns (v: Value, n: nat)
    requires at + Width(s) <= |b|
    ensures v == Decode(s, b, at) && n == Width(s)
    decreases s, Order(s)
  {
    match s
    case Enum(u) => v, n := DeserializeField(b, at, u);
    case Bool => v, n := BoolValue(b[at] != 0), 1;
    case Int(w, signed) => v, n := IntValue(FromRaw(w, signed, ReadUint(w, b, at))), Size(w);
    case Float32 => v, n := Pattern(ReadUint(W4, b, at)), 4;
    case Float64 => v, n := Pattern(ReadUint(W8, b, at)), 8;
    case ByteArray(size) => v, n := BytesValue(b[at..at + size]), size;
    case Struct(_) =>
      var vs;
      vs, n := DeserializeMembers(b, at, s);
      v := StructValue(vs);
  }

  method DeserializeMembers(b: seq<byte>, at: nat, s: Schema) returns (vs: seq<Value>, offset: nat)
    requires s.Struct? && at + Width(s) <= |b|
    ensures vs == DecodeFirst(s, b, at, |s.members|) && offset == Width(s)
    decreases s, |s.members|
  {
    hide Decode;
    vs, offset := [], 0;
    for i := 0 to |s.members|
      invariant offset == Offset(s, i) && at + offset <= |b|
      invariant vs == DecodeFirst(s, b, at, i)
    {
      OffsetsGrow(s, i + 1, |s.members|);
      var v, n := DeserializeField(b, at + offset, s.members[i]);
      vs := vs + [v];
      offset := offset + n;
    }
  }

  // ---- The public entry points ---------------------------------------------------------------------------

  datatype Result<T> = Ok(value: T) | BufferTooSmall

  /** The check comes after the write, so that the caller has to provide the room. */
  method Serialize(buf: array<byte>, start: nat, s: Schema, v: Value) returns (r: Result<nat>)
    requires s.Struct? && Typed(s, v) && start + Width(s) <= buf.Length
    modifies buf
    ensures r == Ok(Width(s))
    ensures buf[..] == Splice(old(buf[..]), start, Encode(s, v))
  {
    hide Splice, Encode;
    var offset := 0;
    SpliceNothing(buf[..], start);
    for i := 0 to |s.members|
      invariant offset == Offset(s, i) <= Width(s)
      invariant buf[..] == Splice(old(buf[..]), start, EncodeFirst(s, v, i))
    {
      OffsetsGrow(s, i + 1, |s.members|);
      var n := SerializeField(buf, start + offset, s.members[i], v.fields[i]);
      SpliceTwice(old(buf[..]), start, EncodeFirst(s, v, i), Encode(s.members[i], v.fields[i]));
      offset := offset + n;
      if offset > buf.Length - start { return BufferTooSmall; }
    }
    EncodeStruct(s, v);
    return Ok(offset);
  }

  /** No member that starts inside a buffer of that size sticks out of it: what the code may read. */
  ghost predicate InBounds(s: Schema, size: nat)
    requires s.Struct?
  {
    forall i :: 0 <= i < |s.members| && Offset(s, i) < size ==> Offset(s, i + 1) <= size
  }

  /** Some member starts at or behind the end of the buffer. */
  ghost predicate StartsOutside(s: Schema, size: nat, n: nat)
    requires s.Struct? && n <= |s.members|
  {
    exists i :: 0 <= i < n && Offset(s, i) >= size
  }

  lemma ReadsWhole(s: Schema, size: nat)
    requires s.Struct? && InBounds(s, size) && !StartsOutside(s, size, |s.members|)
    ensures Width(s) <= size
  {
    var n := |s.members|;
    if n > 0 {
      assert Offset(s, n - 1) < size;
      assert Offset(s, n) <= size;
    }
  }

  /** The buffer must not end before the last member starts; nothing else is checked. */
  ghost function Deserialized(b: seq<byte>, s: Schema): Result<Value>
    requires s.Struct? && InBounds(s, |b|)
  {
    if StartsOutside(s, |b|, |s.members|) then BufferTooSmall
    else
      ReadsWhole(s, |b|);
      Ok(Decode(s, b, 0))
  }

  method Deserialize(b: seq<byte>, s: Schema) returns (r: Result<Value>)
    requires s.Struct? && InBounds(s, |b|)
    ensures r == Deserialized(b, s)
  {
    hide Decode;
    var fields: seq<Value> := [];
    var offset := 0;
    for i := 0 to |s.members|
      invariant offset == Offset(s, i) <= |b|
      invariant !StartsOutside(s, |b|, i) && fields == DecodeFirst(s, b, 0, i)
    {
      if offset >= |b| {
        assert StartsOutside(s, |b|, |s.members|);
        return BufferTooSmall;
      }
      assert Offset(s, i + 1) <= |b|;
      var v, n := DeserializeField(b, offset, s.members[i]);
      fields := fields + [v];
      offset := offset + n;
    }
    DecodeStruct(s, b);
    return Ok(StructValue(fields));
  }

  lemma DecodeStruct(s: Schema, b: seq<byte>)
    requires s.Struct? && Width(s) <= |b|
    ensures Decode(s, b, 0) == StructValue(DecodeFirst(s, b, 0, |s.members|))
  {
  }

  // ---- A message: header and payload ------------------------------------------------------------------------

  function MessageBytes(hdr: seq<byte>, s: Schema, v: Value): (r: seq<byte>)
    requires |hdr| == HEADER_SIZE && Typed(s, v)
    ensures |r| == HEADER_SIZE + Width(s)
  {
    Splice(hdr, 4, BeU32(AnnouncedLength(Width(s)))) + Encode(s, v)
  }

  method SerializeMessage(buf: array<byte>, hdr: seq<byte>, s: Schema, v: Value) returns (r: Result<nat>)
    requires |hdr| == HEADER_SIZE && s.Struct? && Typed(s, v)
    requires buf.Length >= HEADER_SIZE ==> HEADER_SIZE + Width(s) <= buf.Length
    modifies buf
    ensures buf.Length < HEADER_SIZE ==> r == BufferTooSmall && buf[..] == old(buf[..])
    ensures buf.Length >= HEADER_SIZE ==>
      r == Ok(HEADER_SIZE + Width(s)) && buf[..] == Splice(old(buf[..]), 0, MessageBytes(hdr, s, v))
  {
    hide Encode, Splice, BeU32, Typed;
    if buf.Length < HEADER_SIZE { return BufferTooSmall; }
    WriteBytes(buf, 0, hdr);
    var result := Serialize(buf, HEADER_SIZE, s, v);
    var view := new HeaderView(buf);
    view.SetPayloadLength(result.value);
    LengthLast(old(buf[..]), hdr, BeU32(AnnouncedLength(result.value)), Encode(s, v));
    return Ok(HEADER_SIZE + result.value);
  }

  lemma LengthLast(was: seq<byte>, hdr: seq<byte>, length: seq<byte>, payload: seq<byte>)
    requires |hdr| == HEADER_SIZE && |length| == 4 && HEADER_SIZE + |payload| <= |was|
    ensures Splice(Splice(Splice(was, 0, hdr), HEADER_SIZE, payload), 4, length)
         == Splice(was, 0, Splice(hdr, 4, length) + payload)
  {
  }
}
