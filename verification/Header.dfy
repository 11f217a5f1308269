/** The 16-byte SOME/IP header. */
module Header {
  import opened Bytes

  const HEADER_SIZE := 16

  datatype Header = Header(
    service: u16, method_: u16, length: u32, client: u16, session: u16,
    protocol: byte, interface: byte, kind: byte, code: byte)

  function HeaderBytes(h: Header): (r: seq<byte>)
    ensures |r| == HEADER_SIZE
  {
    BeU16(h.service) + BeU16(h.method_) + BeU32(h.length) + BeU16(h.client) + BeU16(h.session)
    + [h.protocol, h.interface, h.kind, h.code]
  }

  function ReadHeader(s: seq<byte>): Header
    requires |s| >= HEADER_SIZE
  {
    Header(ReadU16(s, 0), ReadU16(s, 2), ReadU32(s, 4), ReadU16(s, 8), ReadU16(s, 10), s[12], s[13], s[14], s[15])
  }

  /** The length field for a payload of that size: eight more, on 32 bits. */
  function AnnouncedLength(size: nat): u32 {
    (size % TWO32 + 8) % TWO32
  }

  lemma AnnouncedFits(size: nat)
    requires size + 8 < TWO32
    ensures AnnouncedLength(size) == size + 8
  {
  }

  /** A length field below 8 announces no payload. */
  function PayloadLength(h: Header): nat {
    if h.length >= 8 then h.length - 8 else 0
  }

  /** Where the fields stand. */
  lemma HeaderLayout(h: Header)
    ensures
      var s := HeaderBytes(h);
      && s[0..2] == BeU16(h.service) && s[2..4] == BeU16(h.method_) && s[4..8] == BeU32(h.length)
      && s[8..10] == BeU16(h.client) && s[10..12] == BeU16(h.session)
      && s[12..] == [h.protocol, h.interface, h.kind, h.code]
  {
    hide BeU16, BeU32;
  }

  lemma IdsHeld(h: Header, rest: seq<byte>)
    ensures
      var s := HeaderBytes(h) + rest;
      && Holds(s, 0, BeU16(h.service)) && Holds(s, 2, BeU16(h.method_)) && Holds(s, 4, BeU32(h.length))
      && Holds(s, 8, BeU16(h.client)) && Holds(s, 10, BeU16(h.session))
  {
    hide BeU16, BeU32;
    var s := HeaderBytes(h) + rest;
    var ids := BeU16(h.service) + BeU16(h.method_);
    var last := [h.protocol, h.interface, h.kind, h.code] + rest;
    assert s == ids + BeU32(h.length) + BeU16(h.client) + BeU16(h.session) + last;
    HoldsWhole(ids + BeU32(h.length) + BeU16(h.client) + BeU16(h.session), last);
    HoldsBoth(s, 0, ids + BeU32(h.length) + BeU16(h.client), BeU16(h.session));
    HoldsBoth(s, 0, ids + BeU32(h.length), BeU16(h.client));
    HoldsBoth(s, 0, ids, BeU32(h.length));
    HoldsBoth(s, 0, BeU16(h.service), BeU16(h.method_));
  }

  lemma HoldsWhole(w: seq<byte>, rest: seq<byte>)
    ensures Holds(w + rest, 0, w)
  {
  }

  /** Every field is read back as it was written, whatever follows the header. */
  lemma HeaderRoundTrip(h: Header, rest: seq<byte>)
    ensures ReadHeader(HeaderBytes(h) + rest) == h
  {
    hide BeU16, BeU32, ReadU16, ReadU32;
    var s := HeaderBytes(h) + rest;
    IdsHeld(h, rest);
    ReadWrittenU16(s, 0, h.service);
    ReadWrittenU16(s, 2, h.method_);
    ReadWrittenU32(s, 4, h.length);
    ReadWrittenU16(s, 8, h.client);
    ReadWrittenU16(s, 10, h.session);
  }

  /** The first 16 bytes are the header they are read as. */
  lemma HeaderRewritten(s: seq<byte>)
    requires |s| >= HEADER_SIZE
    ensures HeaderBytes(ReadHeader(s)) == s[..HEADER_SIZE]
  {
    hide BeU16, BeU32, ReadU16, ReadU32;
    WriteReadU16(s, 0);
    WriteReadU16(s, 2);
    WriteReadU32(s, 4);
    WriteReadU16(s, 8);
    WriteReadU16(s, 10);
    assert s[..HEADER_SIZE] == s[0..2] + s[2..4] + s[4..8] + s[8..10] + s[10..12] + s[12..HEADER_SIZE];
  }

  /** Writing the length field over a printed header is printing the header with that length. */
  lemma LengthSpliced(h: Header, length: u32)
    ensures Splice(HeaderBytes(h), 4, BeU32(length)) == HeaderBytes(h.(length := length))
  {
    hide BeU16, BeU32;
    var ids := BeU16(h.service) + BeU16(h.method_);
    var rest := BeU16(h.client) + BeU16(h.session) + [h.protocol, h.interface, h.kind, h.code];
    assert HeaderBytes(h) == ids + BeU32(h.length) + rest;
    assert HeaderBytes(h.(length := length)) == ids + BeU32(length) + rest;
    hide HeaderBytes, Splice;
    SpliceMiddle(ids, BeU32(h.length), rest, BeU32(length));
  }

  // ---- In place ------------------------------------------------------------------------------------

  lemma ReadSpliced16(s: seq<byte>, at: nat, v: u16, i: nat)
    requires at + 2 <= |s| && i + 2 <= |s|
    ensures i == at ==> ReadU16(Splice(s, at, BeU16(v)), i) == v
    ensures i + 2 <= at || at + 2 <= i ==> ReadU16(Splice(s, at, BeU16(v)), i) == ReadU16(s, i)
  {
  }

  lemma ReadSpliced32(s: seq<byte>, at: nat, v: u32, i: nat)
    requires at + 4 <= |s| && i + 4 <= |s|
    ensures i == at ==> ReadU32(Splice(s, at, BeU32(v)), i) == v
    ensures i + 4 <= at || at + 4 <= i ==> ReadU32(Splice(s, at, BeU32(v)), i) == ReadU32(s, i)
  {
    hide BeU32, ReadU32;
    if i == at {
      ReadWrittenU32(Splice(s, at, BeU32(v)), at, v);
    } else if i + 4 <= at || at + 4 <= i {
      SameU32(s, Splice(s, at, BeU32(v)), i);
    }
  }

  lemma SameU32(s: seq<byte>, t: seq<byte>, i: nat)
    requires i + 4 <= |s| && i + 4 <= |t| && forall k :: i <= k < i + 4 ==> s[k] == t[k]
    ensures ReadU32(s, i) == ReadU32(t, i)
  {
  }

  lemma SameU16(s: seq<byte>, t: seq<byte>, i: nat)
    requires i + 2 <= |s| && i + 2 <= |t| && forall k :: i <= k < i + 2 ==> s[k] == t[k]
    ensures ReadU16(s, i) == ReadU16(t, i)
  {
  }

  /** A view of a header at the front of a buffer. Every setter changes its field and nothing else. */
  class HeaderView {
    const data: array<byte>

    ghost predicate Valid() {
      data.Length >= HEADER_SIZE
    }

    ghost function Fields(): Header
      requires Valid()
      reads data
    {
      ReadHeader(data[..])
    }

    constructor (data: array<byte>)
      requires data.Length >= HEADER_SIZE
      ensures this.data == data && Valid()
    {
      this.data := data;
    }

    /** The 16-bit field at `at`. */
    method SetU16(at: nat, v: u16)
      requires Valid() && at in {0, 2, 8, 10}
      modifies data
      ensures data[..] == Splice(old(data[..]), at, BeU16(v))
      ensures
        var h := old(Fields());
        Fields() == if at == 0 then h.(service := v) else if at == 2 then h.(method_ := v)
                    else if at == 8 then h.(client := v) else h.(session := v)
    {
      WriteU16(data, at, v);
      ghost var s, t := old(data[..]), data[..];
      hide ReadU16, ReadU32, BeU16;
      ReadSpliced16(s, at, v, 0);
      ReadSpliced16(s, at, v, 2);
      ReadSpliced16(s, at, v, 8);
      ReadSpliced16(s, at, v, 10);
      SameU32(s, t, 4);
    }

    method SetLength(v: u32)
      requires Valid()
      modifies data
      ensures data[..] == Splice(old(data[..]), 4, BeU32(v))
      ensures Fields() == old(Fields()).(length := v)
    {
      WriteU32(data, 4, v);
      ghost var s, t := old(data[..]), data[..];
      hide ReadU16, ReadU32, BeU32;
      ReadSpliced32(s, 4, v, 4);
      SameU16(s, t, 0);
      SameU16(s, t, 2);
      SameU16(s, t, 8);
      SameU16(s, t, 10);
    }

    /** Eight more than the payload's size, which callers cut to 32 bits. */
    method SetPayloadLength(size: nat)
      requires Valid()
      modifies data
      ensures data[..] == Splice(old(data[..]), 4, BeU32(AnnouncedLength(size)))
      ensures Fields() == old(Fields()).(length := AnnouncedLength(size))
      ensures size + 8 < TWO32 ==> PayloadLength(Fields()) == size
    {
      if size + 8 < TWO32 {
        AnnouncedFits(size);
      }
      SetLength(AnnouncedLength(size));
    }

    /** The 8-bit field at `at`. */
    method SetByte(at: nat, v: byte)
      requires Valid() && 12 <= at < 16
      modifies data
      ensures data[..] == old(data[..])[at := v]
      ensures
        var h := old(Fields());
        Fields() == if at == 12 then h.(protocol := v) else if at == 13 then h.(interface := v)
                    else if at == 14 then h.(kind := v) else h.(code := v)
    {
      data[at] := v;
      ghost var s, t := old(data[..]), data[..];
      hide ReadU16, ReadU32;
      SameU32(s, t, 4);
      SameU16(s, t, 0);
      SameU16(s, t, 2);
      SameU16(s, t, 8);
      SameU16(s, t, 10);
    }

    /** All setters, one after the other. */
    method Fill(h: Header)
      requires Valid()
      modifies data
      ensures Fields() == h
      ensures data[..] == Splice(old(data[..]), 0, HeaderBytes(h))
    {
      hide ReadHeader, HeaderBytes;
      ghost var rest := data[HEADER_SIZE..];
      SetU16(0, h.service);
      SetU16(2, h.method_);
      SetLength(h.length);
      SetU16(8, h.client);
      SetU16(10, h.session);
      SetByte(12, h.protocol);
      SetByte(13, h.interface);
      SetByte(14, h.kind);
      SetByte(15, h.code);
      HeaderRewritten(data[..]);
      assert data[HEADER_SIZE..] == rest;
      assert data[..] == data[..HEADER_SIZE] + data[HEADER_SIZE..];
    }
  }
}
