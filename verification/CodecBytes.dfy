/** What the bytes of a value are: big-endian numbers, two's complement, and members one behind the other. */
module CodecBytes {
  import opened Bytes
  import opened Header
  import opened Codec
  import opened CodecRoundTrip

  /** The number that bytes stand for, the most significant one first. */
  function Number(bs: seq<byte>): nat {
    if |bs| == 0 then 0 else Number(bs[..|bs| - 1]) * 256 + bs[|bs| - 1] as int
  }

  lemma NumberOf2(s: seq<byte>)
    requires |s| == 2
    ensures Number(s) == ReadU16(s, 0)
  {
    assert s[..1][..0] == [] && s[..1][0] == s[0];
    assert Number(s[..1]) == s[0] as int;
  }

  lemma NumberAppend(a: seq<byte>, b: seq<byte>)
    requires |b| == 2
    ensures Number(a + b) == Number(a) * 0x1_0000 + Number(b)
  {
    NumberOneMore(a, b[0]);
    NumberOneMore(a + [b[0]], b[1]);
    NumberOf2(b);
    assert a + b == a + [b[0]] + [b[1]];
  }

  lemma NumberOneMore(a: seq<byte>, x: byte)
    ensures Number(a + [x]) == Number(a) * 256 + x as int
  {
    assert (a + [x])[..|a|] == a;
  }

  lemma NumberOf4(s: seq<byte>)
    requires |s| == 4
    ensures Number(s) == ReadU32(s, 0)
  {
    assert s == s[..2] + s[2..];
    NumberAppend(s[..2], s[2..]);
    NumberOf2(s[..2]);
    NumberOf2(s[2..]);
  }

  lemma NumberOf8(s: seq<byte>)
    requires |s| == 8
    ensures Number(s) == ReadU32(s, 0) * 0x1_0000_0000 + ReadU32(s, 4)
  {
    assert s == s[..4] + s[4..6] + s[6..8];
    NumberAppend(s[..4] + s[4..6], s[6..8]);
    NumberAppend(s[..4], s[4..6]);
    NumberOf4(s[..4]);
    NumberOf2(s[4..6]);
    NumberOf2(s[6..8]);
  }

  /** 1, 2, 4 or 8 bytes, big-endian. */
  lemma UintIsBigEndian(w: IntWidth, raw: nat)
    requires raw < Range(w)
    ensures Number(UintBytes(w, raw)) == raw
    ensures |UintBytes(w, raw)| == match w { case W1 => 1 case W2 => 2 case W4 => 4 case W8 => 8 }
    ensures Range(w) == match w { case W1 => 0x100 case W2 => 0x1_0000 case W4 => 0x1_0000_0000
                                  case W8 => 0x1_0000_0000_0000_0000 }
  {
    var bs := UintBytes(w, raw);
    assert bs[0..|bs|] == bs;
    UintRoundTrip(w, raw, bs, 0);
    match w {
      case W1 => assert bs[..0] == [];
      case W2 => NumberOf2(bs);
      case W4 => NumberOf4(bs);
      case W8 => NumberOf8(bs);
    }
  }

  /** Negative numbers are sent as their two's complement. */
  lemma TwosComplement(w: IntWidth, signed: bool, i: int)
    requires Fits(w, signed, i)
    ensures ToRaw(w, i) == if i < 0 then i + Range(w) else i
    ensures i < 0 ==> signed && -i <= Range(w) / 2
  {
    hide Range;
    RangeIsEven(w);
    WrapOnce(i, Range(w));
  }

  /** The bytes of a scalar and of a byte array, by their type. */
  lemma LeafBytes(s: Schema, v: Value)
    requires Typed(s, v) && !s.Struct? && !s.Enum?
    ensures s.Bool? ==> Encode(s, v) == if v.b then [1] else [0]
    ensures s.Int? ==> Number(Encode(s, v)) == if v.i < 0 then v.i + Range(s.width) else v.i
    ensures s.Int? ==>
      |Encode(s, v)| == match s.width { case W1 => 1 case W2 => 2 case W4 => 4 case W8 => 8 }
    ensures s.Float32? ==> |Encode(s, v)| == 4 && Number(Encode(s, v)) == v.bits
    ensures s.Float64? ==> |Encode(s, v)| == 8 && Number(Encode(s, v)) == v.bits
    ensures s.ByteArray? ==> Encode(s, v) == v.bytes
  {
    hide UintBytes, Number, Range, ToRaw;
    match s
    case Int(w, signed) =>
      TwosComplement(w, signed, v.i);
      UintIsBigEndian(w, ToRaw(w, v.i));
    case Float32 => UintIsBigEndian(W4, v.bits);
    case Float64 => UintIsBigEndian(W8, v.bits);
    case _ =>
  }

  /** Members stand one behind the other, each where those before it end; an enum is its underlying type. */
  lemma {:induction false} MembersFollow(s: Schema, v: Value, i: nat, n: nat)
    requires s.Struct? && Typed(s, v) && i < n <= |s.members|
    ensures Offset(s, 0) == 0 && Offset(s, i + 1) == Offset(s, i) + Width(s.members[i]) <= Offset(s, n)
    ensures EncodeFirst(s, v, n)[Offset(s, i)..Offset(s, i + 1)] == Encode(s.members[i], v.fields[i])
    decreases n
  {
    hide Encode, Width;
    if i < n - 1 {
      MembersFollow(s, v, i, n - 1);
      FrontSlice(EncodeFirst(s, v, n - 1), Encode(s.members[n - 1], v.fields[n - 1]), Offset(s, i), Offset(s, i + 1));
    }
  }

  lemma FrontSlice(a: seq<byte>, b: seq<byte>, i: nat, j: nat)
    requires i <= j <= |a|
    ensures (a + b)[i..j] == a[i..j]
  {
  }

  lemma StructBytes(s: Schema, v: Value, i: nat)
    requires s.Struct? && Typed(s, v) && i < |s.members|
    ensures Offset(s, i) <= Offset(s, i + 1) <= |Encode(s, v)| == Width(s)
    ensures Encode(s, v)[Offset(s, i)..Offset(s, i + 1)] == Encode(s.members[i], v.fields[i])
  {
    MembersFollow(s, v, i, |s.members|);
    EncodeStruct(s, v);
  }

  /** Every byte but 0 is read as true. */
  lemma TruthIsNotZero(b: seq<byte>, at: nat)
    requires at < |b|
    ensures Decode(Bool, b, at) == BoolValue(b[at] != 0)
  {
  }
}
