/** The codec inverts itself on every schema and value, and tiles the buffer. */
module CodecRoundTrip {
  import opened Bytes
  import opened Header
  import opened Codec
  import Framer

  // ---- Scalars ----------------------------------------------------------------------------------------

  lemma UintRoundTrip(w: IntWidth, raw: nat, b: seq<byte>, at: nat)
    requires raw < Range(w) && Holds(b, at, UintBytes(w, raw))
    ensures ReadUint(w, b, at) == raw
  {
    hide BeU16, BeU32, ReadU16, ReadU32;
    match w
    case W1 => assert b[at] == b[at..at + 1][0];
    case W2 => ReadWrittenU16(b, at, raw);
    case W4 => ReadWrittenU32(b, at, raw);
    case W8 =>
      HoldsBoth(b, at, BeU32(raw / TWO32), BeU32(raw % TWO32));
      ReadWrittenU32(b, at, raw / TWO32);
      ReadWrittenU32(b, at + 4, raw % TWO32);
  }

  lemma UintReread(w: IntWidth, b: seq<byte>, at: nat)
    requires at + Size(w) <= |b|
    ensures UintBytes(w, ReadUint(w, b, at)) == b[at..at + Size(w)]
  {
    hide BeU16, BeU32, ReadU16, ReadU32;
    match w
    case W1 =>
    case W2 => WriteReadU16(b, at);
    case W4 => WriteReadU32(b, at);
    case W8 =>
      var high, low := ReadU32(b, at), ReadU32(b, at + 4);
      Halves(high, low);
      WriteReadU32(b, at);
      WriteReadU32(b, at + 4);
      assert b[at..at + 8] == b[at..at + 4] + b[at + 4..at + 8];
  }

  lemma Halves(high: u32, low: u32)
    ensures (high * TWO32 + low) / TWO32 == high && (high * TWO32 + low) % TWO32 == low
  {
  }

  lemma WrapOnce(i: int, range: int)
    requires 0 < range && -range <= i < range
    ensures i % range == if i < 0 then i + range else i
  {
    if i < 0 {
      assert i == -1 * range + (i + range);
    }
  }

  /** Two's complement: converting to unsigned and back, and the other way round. */
  lemma SignRoundTrip(w: IntWidth, signed: bool, i: int, raw: nat)
    requires Fits(w, signed, i) && raw < Range(w)
    ensures FromRaw(w, signed, ToRaw(w, i)) == i
    ensures Fits(w, signed, FromRaw(w, signed, raw)) && ToRaw(w, FromRaw(w, signed, raw)) == raw
  {
    hide Range;
    RangeIsEven(w);
    WrapOnce(i, Range(w));
    WrapOnce(FromRaw(w, signed, raw), Range(w));
  }

  lemma RangeIsEven(w: IntWidth)
    ensures Range(w) == 2 * (Range(w) / 2) > 0
  {
  }

  // ---- Decoding inverts encoding --------------------------------------------------------------------------

  /** Wherever an encoded value stands in a buffer, it is read back. */
  lemma {:induction false} DecodeEncoded(s: Schema, v: Value, b: seq<byte>, at: nat)
    requires Typed(s, v) && Holds(b, at, Encode(s, v))
    ensures Decode(s, b, at) == v
    decreases s, Order(s)
  {
    hide UintBytes, ReadUint, FromRaw, ToRaw, DecodeFirst, EncodeFirst;
    match s
    case Bool => assert b[at] == b[at..at + 1][0];
    case Int(w, signed) =>
      UintRoundTrip(w, ToRaw(w, v.i), b, at);
      SignRoundTrip(w, signed, v.i, ToRaw(w, v.i));
    case Float32 => UintRoundTrip(W4, v.bits, b, at);
    case Float64 => UintRoundTrip(W8, v.bits, b, at);
    case Enum(u) => DecodeEncoded(u, v, b, at);
    case ByteArray(n) =>
    case Struct(ms) =>
      DecodeFirstEncoded(s, v, b, at, |ms|);
      assert v.fields[..|ms|] == v.fields;
  }

  lemma {:induction false} DecodeFirstEncoded(s: Schema, v: Value, b: seq<byte>, at: nat, n: nat)
    requires s.Struct? && Typed(s, v) && n <= |s.members| && Holds(b, at, EncodeFirst(s, v, n))
    ensures DecodeFirst(s, b, at, n) == v.fields[..n]
    decreases s, n
  {
    hide Decode, Encode;
    if n > 0 {
      HoldsBoth(b, at, EncodeFirst(s, v, n - 1), Encode(s.members[n - 1], v.fields[n - 1]));
      DecodeFirstEncoded(s, v, b, at, n - 1);
      DecodeEncoded(s.members[n - 1], v.fields[n - 1], b, at + Offset(s, n - 1));
    }
  }

  /** Different values of a type have different bytes. */
  lemma EncodeIsInjective(s: Schema, v: Value, w: Value)
    requires Typed(s, v) && Typed(s, w) && Encode(s, v) == Encode(s, w)
    ensures v == w
  {
    var b := Encode(s, v);
    assert b[0..0 + |b|] == b;
    DecodeEncoded(s, v, b, 0);
    DecodeEncoded(s, w, b, 0);
  }

  // ---- Encoding inverts decoding, but for booleans -------------------------------------------------------------

  /** Every boolean is the byte 0 or 1. */
  predicate CleanBools(s: Schema, b: seq<byte>, at: nat)
    requires at + Width(s) <= |b|
    decreases s, Order(s)
  {
    match s
    case Bool => b[at] <= 1
    case Enum(u) => CleanBools(u, b, at)
    case Struct(ms) => CleanFirst(s, b, at, |ms|)
    case _ => true
  }

  predicate CleanFirst(s: Schema, b: seq<byte>, at: nat, n: nat)
    requires s.Struct? && n <= |s.members| && at + Offset(s, n) <= |b|
    decreases s, n
  {
    n == 0 || (CleanFirst(s, b, at, n - 1) && CleanBools(s.members[n - 1], b, at + Offset(s, n - 1)))
  }

  lemma {:induction false} DecodedIsTyped(s: Schema, b: seq<byte>, at: nat)
    requires at + Width(s) <= |b|
    ensures Typed(s, Decode(s, b, at))
    decreases s
  {
    hide ReadUint, FromRaw, ToRaw, DecodeFirst, Fits;
    match s
    case Int(w, signed) =>
      ZeroFits(w, signed);
      SignRoundTrip(w, signed, 0, ReadUint(w, b, at));
    case Enum(u) => DecodedIsTyped(u, b, at);
    case Struct(ms) =>
      var v := Decode(s, b, at);
      forall i | 0 <= i < |ms|
        ensures Typed(ms[i], v.fields[i])
      {
        DecodedField(s, b, at, |ms|, i);
        DecodedIsTyped(ms[i], b, at + Offset(s, i));
      }
    case _ =>
  }

  /** Any bytes decode to a value of the type, which encodes to the same bytes exactly when the booleans are clean. */
  lemma {:induction false} EncodeDecoded(s: Schema, b: seq<byte>, at: nat)
    requires at + Width(s) <= |b|
    ensures Typed(s, Decode(s, b, at))
    ensures Encode(s, Decode(s, b, at)) == b[at..at + Width(s)] <==> CleanBools(s, b, at)
    decreases s, Order(s)
  {
    hide UintBytes, ReadUint, FromRaw, ToRaw, DecodeFirst, EncodeFirst, CleanFirst, Fits, Typed;
    DecodedIsTyped(s, b, at);
    match s
    case Bool =>
      assert b[at..at + 1] == [b[at]];
      var e: seq<byte> := [if b[at] != 0 then 1 else 0];
      assert e == [b[at]] <==> e[0] == b[at];
    case Int(w, signed) =>
      UintReread(w, b, at);
      ZeroFits(w, signed);
      SignRoundTrip(w, signed, 0, ReadUint(w, b, at));
    case Float32 => UintReread(W4, b, at);
    case Float64 => UintReread(W8, b, at);
    case Enum(u) => EncodeDecoded(u, b, at);
    case ByteArray(n) =>
    case Struct(ms) => EncodeFirstDecoded(s, b, at, |ms|, Decode(s, b, at));
  }

  lemma ZeroFits(w: IntWidth, signed: bool)
    ensures Fits(w, signed, 0)
  {
  }

  lemma {:induction false} DecodedField(s: Schema, b: seq<byte>, at: nat, n: nat, i: nat)
    requires s.Struct? && i < n <= |s.members| && at + Offset(s, n) <= |b|
    ensures at + Offset(s, i + 1) <= |b|
    ensures DecodeFirst(s, b, at, n)[i] == Decode(s.members[i], b, at + Offset(s, i))
    decreases n
  {
    hide Decode;
    if i < n - 1 {
      DecodedField(s, b, at, n - 1, i);
    }
  }

  lemma {:induction false} EncodeFirstDecoded(s: Schema, b: seq<byte>, at: nat, n: nat, v: Value)
    requires s.Struct? && n <= |s.members| && at + Width(s) <= |b|
    requires v == Decode(s, b, at) && Typed(s, v) && at + Offset(s, n) <= |b|
    ensures EncodeFirst(s, v, n) == b[at..at + Offset(s, n)] <==> CleanFirst(s, b, at, n)
    decreases s, n
  {
    hide Decode, DecodeFirst, Encode, EncodeFirst, CleanBools, Width, Typed;
    if n == 0 {
      NothingEncoded(s, v);
    } else {
      DecodeStructAt(s, b, at);
      WidthIsLastOffset(s);
      EncodeFirstDecoded(s, b, at, n - 1, v);
      DecodedField(s, b, at, |s.members|, n - 1);
      EncodeDecoded(s.members[n - 1], b, at + Offset(s, n - 1));
      OneMoreField(s, v, n);
      SplitEqual(EncodeFirst(s, v, n - 1), Encode(s.members[n - 1], v.fields[n - 1]), b, at);
    }
  }

  lemma NothingEncoded(s: Schema, v: Value)
    requires s.Struct? && Typed(s, v)
    ensures EncodeFirst(s, v, 0) == []
  {
  }

  lemma OneMoreField(s: Schema, v: Value, n: nat)
    requires s.Struct? && Typed(s, v) && 0 < n <= |s.members|
    ensures v.StructValue? && |v.fields| == |s.members| && Typed(s.members[n - 1], v.fields[n - 1])
    ensures EncodeFirst(s, v, n) == EncodeFirst(s, v, n - 1) + Encode(s.members[n - 1], v.fields[n - 1])
  {
  }

  lemma DecodeStructAt(s: Schema, b: seq<byte>, at: nat)
    requires s.Struct? && at + Width(s) <= |b|
    ensures Decode(s, b, at) == StructValue(DecodeFirst(s, b, at, |s.members|))
  {
  }

  lemma SplitEqual(u: seq<byte>, v: seq<byte>, b: seq<byte>, at: nat)
    requires at + |u| + |v| <= |b|
    ensures u + v == b[at..at + |u| + |v|] <==> u == b[at..at + |u|] && v == b[at + |u|..at + |u| + |v|]
  {
    assert b[at..at + |u| + |v|] == b[at..at + |u|] + b[at + |u|..at + |u| + |v|];
    if u + v == b[at..at + |u| + |v|] {
      assert (u + v)[..|u|] == u && (u + v)[|u|..] == v;
    }
  }

  // ---- The entry points ---------------------------------------------------------------------------------------

  lemma EnoughRoom(s: Schema, size: nat)
    requires s.Struct? && Width(s) <= size
    ensures InBounds(s, size)
  {
    forall i | 0 <= i < |s.members|
      ensures Offset(s, i) < size ==> Offset(s, i + 1) <= size
    {
      OffsetsGrow(s, i + 1, |s.members|);
    }
  }

  /** The check refuses a complete buffer only when nothing is left for a last member without bytes. */
  lemma StartsOutsideExactly(s: Schema, size: nat)
    requires s.Struct? && Width(s) <= size
    ensures StartsOutside(s, size, |s.members|) <==>
      size == Width(s) && s.members != [] && Width(s.members[|s.members| - 1]) == 0
  {
    hide Width;
    WidthIsLastOffset(s);
    var n := |s.members|;
    forall i | 0 <= i < n
      ensures Offset(s, i) <= Offset(s, n - 1)
    {
      OffsetsGrow(s, i, n - 1);
    }
    if n > 0 {
      assert StartsOutside(s, size, n) <==> Offset(s, n - 1) >= size;
    }
  }

  lemma WidthIsLastOffset(s: Schema)
    requires s.Struct?
    ensures Width(s) == Offset(s, |s.members|)
  {
  }

  /**
   Deserializing what was serialized gives the value back, whatever follows it in the buffer, unless the
   buffer ends with the value and the last top-level member has no bytes.
   */
  lemma CodecInverts(s: Schema, v: Value, tail: seq<byte>)
    requires s.Struct? && Typed(s, v)
    ensures InBounds(s, |Encode(s, v) + tail|)
    ensures Deserialized(Encode(s, v) + tail, s) == Ok(v) <==>
      tail != [] || s.members == [] || Width(s.members[|s.members| - 1]) > 0
  {
    hide Encode, Decode, Width, InBounds, StartsOutside;
    var b := Encode(s, v) + tail;
    EnoughRoom(s, |b|);
    StartsOutsideExactly(s, |b|);
    assert Holds(b, 0, Encode(s, v));
    DecodeEncoded(s, v, b, 0);
  }

  /** The ids of the two magic cookies. */
  predicate CookieIds(hdr: seq<byte>)
    requires |hdr| == HEADER_SIZE
  {
    || (ReadU16(hdr, 0) == 0xFFFF && ReadU16(hdr, 2) == 0x0000)
    || (ReadU16(hdr, 0) == 0xDEAD && ReadU16(hdr, 2) == 0xBEEF)
  }

  /**
  A serialized message is framed as one message exactly if it is not too large and does not look like a
  cookie, which only one without a payload can; its payload reads back.
  */
  lemma MessageRoundTrip(hdr: seq<byte>, s: Schema, v: Value)
    requires |hdr| == HEADER_SIZE && s.Struct? && Typed(s, v) && Width(s) + 8 < TWO32
    ensures Framer.WellFormed(Framer.Emitted(MessageBytes(hdr, s, v)))
       <==> HEADER_SIZE + Width(s) <= 4_194_304 && (Width(s) > 0 || !CookieIds(hdr))
    ensures ReadHeader(MessageBytes(hdr, s, v)) == ReadHeader(hdr).(length := Width(s) + 8)
    ensures Decode(s, MessageBytes(hdr, s, v), HEADER_SIZE) == v
  {
    hide Encode, Decode, Width, ReadU32, BeU32, ReadU16, AnnouncedLength;
    AnnouncedFits(Width(s));
    var m := MessageBytes(hdr, s, v);
    MessageReads(hdr, Width(s) + 8, Encode(s, v));
    assert Holds(m, HEADER_SIZE, Encode(s, v));
    DecodeEncoded(s, v, m, HEADER_SIZE);
  }

  lemma MessageReads(hdr: seq<byte>, length: u32, payload: seq<byte>)
    requires |hdr| == HEADER_SIZE
    ensures
      var m := Splice(hdr, 4, BeU32(length)) + payload;
      ReadHeader(m) == ReadHeader(hdr).(length := length)
  {
    hide ReadU16, ReadU32, BeU32;
    var m := Splice(hdr, 4, BeU32(length)) + payload;
    assert m[4..8] == BeU32(length);
    ReadWrittenU32(m, 4, length);
    SameU16(hdr, m, 0);
    SameU16(hdr, m, 2);
    SameU16(hdr, m, 8);
    SameU16(hdr, m, 10);
  }

  // ---- Tiling -----------------------------------------------------------------------------------------------------

  /** The places of the scalars and byte arrays of a value that starts at `at`. */
  function Leaves(s: Schema, at: nat): seq<(nat, nat)>
    decreases s, Order(s)
  {
    match s
    case Enum(u) => Leaves(u, at)
    case Struct(ms) => LeavesFirst(s, at, |ms|)
    case _ => [(at, Width(s))]
  }

  function LeavesFirst(s: Schema, at: nat, n: nat): seq<(nat, nat)>
    requires s.Struct? && n <= |s.members|
    decreases s, n
  {
    if n == 0 then [] else LeavesFirst(s, at, n - 1) + Leaves(s.members[n - 1], at + Offset(s, n - 1))
  }

  /** The places follow each other without gap or overlap. */
  ghost predicate Tiles(places: seq<(nat, nat)>, from: nat, to: nat) {
    if |places| == 0 then from == to
    else
      var (at, width) := places[|places| - 1];
      at + width == to && Tiles(places[..|places| - 1], from, at)
  }

  lemma {:induction false} TilesAppend(a: seq<(nat, nat)>, b: seq<(nat, nat)>, from: nat, mid: nat, to: nat)
    requires Tiles(a, from, mid) && Tiles(b, mid, to)
    ensures Tiles(a + b, from, to)
    decreases |b|
  {
    if |b| == 0 {
      assert a + b == a;
    } else {
      TilesAppend(a, b[..|b| - 1], from, mid, b[|b| - 1].0);
      assert (a + b)[..|a + b| - 1] == a + b[..|b| - 1];
    }
  }

  /** However deep the nesting, the fields tile exactly the bytes of the value. */
  lemma {:induction false} LeavesTile(s: Schema, at: nat)
    ensures Tiles(Leaves(s, at), at, at + Width(s))
    decreases s, Order(s)
  {
    match s
    case Enum(u) => LeavesTile(u, at);
    case Struct(ms) => LeavesFirstTile(s, at, |ms|);
    case _ =>
      assert [(at, Width(s))][..0] == [];
  }

  lemma {:induction false} LeavesFirstTile(s: Schema, at: nat, n: nat)
    requires s.Struct? && n <= |s.members|
    ensures Tiles(LeavesFirst(s, at, n), at, at + Offset(s, n))
    decreases s, n
  {
    hide Tiles, Leaves;
    if n == 0 {
      NothingTiles(at);
    } else {
      var here := at + Offset(s, n - 1);
      LeavesFirstTile(s, at, n - 1);
      LeavesTile(s.members[n - 1], here);
      TilesAppend(LeavesFirst(s, at, n - 1), Leaves(s.members[n - 1], here), at, here, at + Offset(s, n));
    }
  }

  lemma NothingTiles(at: nat)
    ensures Tiles([], at, at)
  {
  }

  /** The scalars and byte arrays of a value, with their types, in the order of their places. */
  function LeafValues(s: Schema, v: Value): seq<(Schema, Value)>
    requires Typed(s, v)
    decreases s, Order(s)
  {
    match s
    case Enum(u) => LeafValues(u, v)
    case Struct(ms) => LeafValuesFirst(s, v, |ms|)
    case _ => [(s, v)]
  }

  function LeafValuesFirst(s: Schema, v: Value, n: nat): seq<(Schema, Value)>
    requires s.Struct? && Typed(s, v) && n <= |s.members|
    decreases s, n
  {
    if n == 0 then [] else LeafValuesFirst(s, v, n - 1) + LeafValues(s.members[n - 1], v.fields[n - 1])
  }

  ghost predicate LeafHeld(b: seq<byte>, place: (nat, nat), leaf: (Schema, Value)) {
    && Typed(leaf.0, leaf.1) && !leaf.0.Struct? && !leaf.0.Enum?
    && place.1 == Width(leaf.0) && Holds(b, place.0, Encode(leaf.0, leaf.1))
  }

  ghost predicate AllHeld(b: seq<byte>, places: seq<(nat, nat)>, leaves: seq<(Schema, Value)>) {
    |places| == |leaves| && forall i :: 0 <= i < |places| ==> LeafHeld(b, places[i], leaves[i])
  }

  /** Wherever an encoded value stands, every leaf's place holds the encoding of that leaf's own value. */
  lemma {:induction false} LeavesHold(s: Schema, v: Value, b: seq<byte>, at: nat)
    requires Typed(s, v) && Holds(b, at, Encode(s, v))
    ensures AllHeld(b, Leaves(s, at), LeafValues(s, v))
    decreases s, Order(s)
  {
    hide UintBytes, EncodeFirst, LeavesFirst, LeafValuesFirst;
    match s
    case Enum(u) => LeavesHold(u, v, b, at);
    case Struct(ms) => LeavesFirstHold(s, v, b, at, |ms|);
    case _ =>
  }

  lemma {:induction false} LeavesFirstHold(s: Schema, v: Value, b: seq<byte>, at: nat, n: nat)
    requires s.Struct? && Typed(s, v) && n <= |s.members| && Holds(b, at, EncodeFirst(s, v, n))
    ensures AllHeld(b, LeavesFirst(s, at, n), LeafValuesFirst(s, v, n))
    decreases s, n
  {
    hide Encode, Leaves, LeafValues, LeafHeld;
    if n > 0 {
      HoldsBoth(b, at, EncodeFirst(s, v, n - 1), Encode(s.members[n - 1], v.fields[n - 1]));
      LeavesFirstHold(s, v, b, at, n - 1);
      LeavesHold(s.members[n - 1], v.fields[n - 1], b, at + Offset(s, n - 1));
    }
  }
}
