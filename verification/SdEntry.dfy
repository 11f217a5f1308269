/** Service Discovery entries: exactly 16 bytes each on the wire. */
module SdEntry {
  import opened Bytes

  const ENTRY_SIZE := 16
  const TWO24 := 0x100_0000

  const FIND_SERVICE: byte := 0x00
  const OFFER_SERVICE: byte := 0x01

  /** Covers service and eventgroup entries; the entry type is any byte, as the reader casts it. */
  datatype Entry = Entry(
    kind: byte, index1: byte, index2: byte, count1: byte, count2: byte,
    service: u16, instance: u16, major: byte, ttl: u32, minor: u32, eventgroup: u16)

  predicate IsServiceEntry(kind: byte) {
    kind <= 0x02
  }

  function MakeOffer(service: u16, instance: u16, major: byte, minor: u32, ttl: u32): Entry {
    Entry(OFFER_SERVICE, 0, 0, 0, 0, service, instance, major, ttl, minor, 0)
  }

  function MakeFind(service: u16, instance: u16, major: byte, minor: u32, ttl: u32): Entry {
    Entry(FIND_SERVICE, 0, 0, 0, 0, service, instance, major, ttl, minor, 0)
  }

  function CountsByte(e: Entry): byte {
    e.count1 % 16 * 16 + e.count2 % 16
  }

  /** The lower three bytes, highest first. */
  function TtlByte(ttl: u32, k: nat): byte
    requires k < 3
  {
    if k == 0 then LowByte(HighHalf(ttl)) else if k == 1 then HighByte(LowHalf(ttl)) else LowByte(LowHalf(ttl))
  }

  function VariantBytes(e: Entry): (r: seq<byte>)
    ensures |r| == 4
  {
    if IsServiceEntry(e.kind) then BeU32(e.minor) else [0, 0] + BeU16(e.eventgroup)
  }

  function NumbersBytes(e: Entry): (r: seq<byte>)
    ensures |r| == 8
  {
    BeU16(e.service) + BeU16(e.instance) + [e.major, TtlByte(e.ttl, 0), TtlByte(e.ttl, 1), TtlByte(e.ttl, 2)]
  }

  function EntryBytes(e: Entry): (r: seq<byte>)
    ensures |r| == ENTRY_SIZE
  {
    [e.kind, e.index1, e.index2, CountsByte(e)] + NumbersBytes(e) + VariantBytes(e)
  }

  function ReadEntry(s: seq<byte>, at: nat): Entry
    requires at + ENTRY_SIZE <= |s|
  {
    Entry(s[at], s[at + 1], s[at + 2], s[at + 3] / 16, s[at + 3] % 16,
          ReadU16(s, at + 4), ReadU16(s, at + 6), s[at + 8],
          s[at + 9] as int * 0x1_0000 + s[at + 10] as int * 0x100 + s[at + 11] as int,
          if IsServiceEntry(s[at]) then ReadU32(s, at + 12) else 0,
          if IsServiceEntry(s[at]) then 0 else ReadU16(s, at + 14))
  }

  method WriteEntry(buf: array<byte>, at: nat, e: Entry)
    requires at + ENTRY_SIZE <= buf.Length
    modifies buf
    ensures buf[..] == Splice(old(buf[..]), at, EntryBytes(e))
  {
    hide CountsByte, TtlByte, Splice, BeU16, BeU32;
    ghost var was := buf[..];
    WriteBytes(buf, at, [e.kind, e.index1, e.index2, CountsByte(e)]);
    WriteU16(buf, at + 4, e.service);
    WriteU16(buf, at + 6, e.instance);
    WriteBytes(buf, at + 8, [e.major, TtlByte(e.ttl, 0), TtlByte(e.ttl, 1), TtlByte(e.ttl, 2)]);
    NumbersWritten(was, at, e);
    if IsServiceEntry(e.kind) {
      WriteU32(buf, at + 12, e.minor);
    } else {
      WriteBytes(buf, at + 12, [0, 0]);
      WriteU16(buf, at + 14, e.eventgroup);
      SpliceTwice(Splice(was, at, EntryBytes(e)[..12]), at + 12, [0, 0], BeU16(e.eventgroup));
    }
    SpliceTwice(was, at, EntryBytes(e)[..12], VariantBytes(e));
    assert EntryBytes(e)[..12] + VariantBytes(e) == EntryBytes(e);
  }

  lemma NumbersWritten(was: seq<byte>, at: nat, e: Entry)
    requires at + ENTRY_SIZE <= |was|
    ensures
      var head := Splice(was, at, [e.kind, e.index1, e.index2, CountsByte(e)]);
      var ids := Splice(Splice(head, at + 4, BeU16(e.service)), at + 6, BeU16(e.instance));
      && Splice(ids, at + 8, [e.major, TtlByte(e.ttl, 0), TtlByte(e.ttl, 1), TtlByte(e.ttl, 2)])
      == Splice(was, at, EntryBytes(e)[..12])
  {
    hide CountsByte, TtlByte, Splice, BeU16, BeU32, VariantBytes;
    var head, ids := [e.kind, e.index1, e.index2, CountsByte(e)], BeU16(e.service) + BeU16(e.instance);
    var ttl := [e.major, TtlByte(e.ttl, 0), TtlByte(e.ttl, 1), TtlByte(e.ttl, 2)];
    SpliceTwice(Splice(was, at, head), at + 4, BeU16(e.service), BeU16(e.instance));
    SpliceTwice(Splice(was, at, head), at + 4, ids, ttl);
    SpliceTwice(was, at, head, ids + ttl);
    assert head + (ids + ttl) == EntryBytes(e)[..12];
  }

  // ---- Round trips -----------------------------------------------------------------------------

  /** The entry fits its wire fields and leaves the field of the other kind of entry alone. */
  predicate Storable(e: Entry) {
    && e.count1 < 16 && e.count2 < 16 && e.ttl < TWO24
    && (if IsServiceEntry(e.kind) then e.eventgroup == 0 else e.minor == 0)
  }

  lemma TtlRoundTrip(ttl: u32)
    ensures TtlByte(ttl, 0) as int * 0x1_0000 + TtlByte(ttl, 1) as int * 0x100 + TtlByte(ttl, 2) as int == ttl % TWO24
  {
    var low := LowByte(HighHalf(ttl)) as int * 0x1_0000 + LowHalf(ttl);
    assert ttl == HighByte(HighHalf(ttl)) * TWO24 + low && 0 <= low < TWO24;
    CutTo24(HighByte(HighHalf(ttl)), low);
  }

  lemma CutTo24(high: byte, low: nat)
    requires low < TWO24
    ensures (high as int * TWO24 + low) % TWO24 == low
  {
  }

  /** Where the fields of an entry written at `at` can be found again. */
  lemma EntryPieces(s: seq<byte>, at: nat, e: Entry)
    requires at + ENTRY_SIZE <= |s| && s[at..at + ENTRY_SIZE] == EntryBytes(e)
    ensures s[at] == e.kind && s[at + 1] == e.index1 && s[at + 2] == e.index2 && s[at + 3] == CountsByte(e)
    ensures s[at + 4..at + 6] == BeU16(e.service) && s[at + 6..at + 8] == BeU16(e.instance)
    ensures s[at + 8] == e.major
    ensures s[at + 9] == TtlByte(e.ttl, 0) && s[at + 10] == TtlByte(e.ttl, 1) && s[at + 11] == TtlByte(e.ttl, 2)
    ensures s[at + 12..at + 16] == VariantBytes(e)
  {
    hide CountsByte, TtlByte, BeU16, VariantBytes;
    var w := EntryBytes(e);
    assert w[4..12] == NumbersBytes(e) && w[12..16] == VariantBytes(e);
    assert w[4..6] == NumbersBytes(e)[..2] && w[6..8] == NumbersBytes(e)[2..4];
    SliceOfSlice(s, at, ENTRY_SIZE, 4, 6);
    SliceOfSlice(s, at, ENTRY_SIZE, 6, 8);
    SliceOfSlice(s, at, ENTRY_SIZE, 12, 16);
    var v := s[at..at + ENTRY_SIZE];
    assert s[at] == v[0] && s[at + 1] == v[1] && s[at + 2] == v[2] && s[at + 3] == v[3];
    assert s[at + 8] == v[8] && s[at + 9] == v[9] && s[at + 10] == v[10] && s[at + 11] == v[11];
  }

  /** An entry survives the wire exactly when it is storable. */
  lemma EntryRoundTrip(s: seq<byte>, at: nat, e: Entry)
    requires at + ENTRY_SIZE <= |s| && s[at..at + ENTRY_SIZE] == EntryBytes(e)
    ensures ReadEntry(s, at) == e <==> Storable(e)
  {
    hide TtlByte, EntryBytes, BeU16, BeU32, ReadU16, ReadU32;
    EntryPieces(s, at, e);
    ReadWrittenU16(s, at + 4, e.service);
    ReadWrittenU16(s, at + 6, e.instance);
    TtlRoundTrip(e.ttl);
    if IsServiceEntry(e.kind) {
      ReadWrittenU32(s, at + 12, e.minor);
    } else {
      assert s[at + 14..at + 16] == s[at + 12..at + 16][2..];
      ReadWrittenU16(s, at + 14, e.eventgroup);
    }
  }

  lemma TtlBytesRead(a: byte, b: byte, c: byte)
    ensures a as int * 0x1_0000 + b as int * 0x100 + c as int < TWO24
    ensures TtlByte(a as int * 0x1_0000 + b as int * 0x100 + c as int, 0) == a
    ensures TtlByte(a as int * 0x1_0000 + b as int * 0x100 + c as int, 1) == b
    ensures TtlByte(a as int * 0x1_0000 + b as int * 0x100 + c as int, 2) == c
  {
  }

  /** Everything read is storable, and is written back as it was unless the reserved bytes were used. */
  lemma ReadEntryRoundTrip(s: seq<byte>, at: nat)
    requires at + ENTRY_SIZE <= |s|
    ensures Storable(ReadEntry(s, at))
    ensures EntryBytes(ReadEntry(s, at)) == s[at..at + ENTRY_SIZE]
       <==> IsServiceEntry(s[at]) || (s[at + 12] == 0 && s[at + 13] == 0)
  {
    hide TtlByte;
    TtlBytesRead(s[at + 9], s[at + 10], s[at + 11]);
    var e, w := ReadEntry(s, at), s[at..at + ENTRY_SIZE];
    WriteReadU16(s, at + 4);
    WriteReadU16(s, at + 6);
    assert w == w[..4] + w[4..6] + w[6..8] + w[8..12] + w[12..16];
    assert EntryBytes(e)[12..16] == VariantBytes(e);
    assert EntryBytes(e)[..12] == w[..12];
    if IsServiceEntry(s[at]) {
      WriteReadU32(s, at + 12);
    } else {
      WriteReadU16(s, at + 14);
      assert VariantBytes(e)[0] == 0 && VariantBytes(e)[1] == 0;
      assert w[12..16] == [s[at + 12], s[at + 13]] + s[at + 14..at + 16];
    }
  }

  // ---- What the wire makes of an entry ------------------------------------------------------------

  /** Counts cut to 4 bits, the TTL to 24, and the field of the other kind of entry dropped. */
  function Cut(e: Entry): Entry {
    e.(count1 := e.count1 % 16, count2 := e.count2 % 16, ttl := e.ttl % TWO24,
       minor := if IsServiceEntry(e.kind) then e.minor else 0,
       eventgroup := if IsServiceEntry(e.kind) then 0 else e.eventgroup)
  }

  lemma CutTtl(ttl: u32, k: nat)
    requires k < 3
    ensures TtlByte(ttl % TWO24, k) == TtlByte(ttl, k)
  {
    var high, low := HighByte(HighHalf(ttl)), LowByte(HighHalf(ttl)) as int * 0x1_0000 + LowHalf(ttl);
    assert ttl == high * TWO24 + low && 0 <= low < TWO24;
    CutTo24(high, low);
    assert HighHalf(low) == LowByte(HighHalf(ttl)) && LowHalf(low) == LowHalf(ttl);
  }

  lemma CutCounts(e: Entry)
    ensures CountsByte(Cut(e)) == CountsByte(e)
  {
  }

  /** An entry and what the wire makes of it have the same bytes; a storable one is left alone. */
  lemma CutBytes(e: Entry)
    ensures Storable(Cut(e)) && EntryBytes(Cut(e)) == EntryBytes(e) && (Storable(e) ==> Cut(e) == e)
  {
    hide TtlByte, CountsByte, BeU16, BeU32;
    CutTtl(e.ttl, 0);
    CutTtl(e.ttl, 1);
    CutTtl(e.ttl, 2);
    CutCounts(e);
  }
}
