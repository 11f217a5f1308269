/** The Service Discovery payload byte by byte, and what the reader makes of any options array. */
module SdWire {
  import opened Bytes
  import opened SdEntry
  import opened SdMessage
  import opened SdRoundTrip
  import O = SdOption

  // ---- Where the fields stand ---------------------------------------------------------------------------

  /** Types 0 to 2 are service entries with a minor version, all others name an eventgroup. */
  lemma EntryLayout(e: Entry)
    ensures
      var w := EntryBytes(e);
      && w[0] == e.kind && w[1] == e.index1 && w[2] == e.index2
      && w[3] == e.count1 % 16 * 16 + e.count2 % 16
      && w[4..6] == BeU16(e.service) && w[6..8] == BeU16(e.instance) && w[8] == e.major
      && w[9] as int * 0x1_0000 + w[10] as int * 0x100 + w[11] as int == e.ttl % 0x100_0000
      && w[12..] == if e.kind in {0, 1, 2} then BeU32(e.minor) else [0, 0] + BeU16(e.eventgroup)
  {
    hide BeU16, BeU32, TtlByte;
    TtlRoundTrip(e.ttl);
  }

  lemma EntryFields(s: seq<byte>, at: nat)
    requires at + 16 <= |s|
    ensures
      var e := ReadEntry(s, at);
      && e.kind == s[at] && e.index1 == s[at + 1] && e.index2 == s[at + 2]
      && e.count1 == s[at + 3] / 16 && e.count2 == s[at + 3] % 16
      && e.service == ReadU16(s, at + 4) && e.instance == ReadU16(s, at + 6) && e.major == s[at + 8]
      && e.ttl == s[at + 9] as int * 0x1_0000 + s[at + 10] as int * 0x100 + s[at + 11] as int
      && e.minor == (if s[at] in {0, 1, 2} then ReadU32(s, at + 12) else 0)
      && e.eventgroup == if s[at] in {0, 1, 2} then 0 else ReadU16(s, at + 14)
  {
    hide ReadU16, ReadU32;
  }

  /** The length field is 9 or 21; the address follows the type, protocol and port close the option. */
  lemma OptionLayout(o: O.SdOption)
    ensures
      var w := O.OptionBytes(o);
      if o.Ipv4?
      then |w| == 12 && w == [0, 9, o.kind, 0] + o.address4 + [0, o.protocol] + BeU16(o.port)
      else |w| == 24 && w == [0, 21, o.kind, 0] + o.address6 + [0, o.protocol] + BeU16(o.port)
  {
    BigEndian16(9);
    BigEndian16(21);
    hide BeU16;
  }

  lemma {:induction false} EntryAt(es: seq<Entry>, i: nat)
    requires i < |es|
    ensures EntriesBytes(es)[16 * i..16 * i + 16] == EntryBytes(es[i])
    decreases |es|
  {
    hide EntryBytes;
    var n := |es| - 1;
    if i < n {
      EntryAt(es[..n], i);
      BeforeLast(EntriesBytes(es[..n]), EntryBytes(es[n]), 16 * i);
    }
  }

  lemma BeforeLast(front: seq<byte>, last: seq<byte>, at: nat)
    requires at + 16 <= |front|
    ensures (front + last)[at..at + 16] == front[at..at + 16]
  {
  }

  /** Reboot in bit 7 and unicast in bit 6, then both arrays behind their lengths, entry i at 8 + 16 i. */
  lemma PayloadLayout(m: Message)
    ensures
      var s, n := SdBytes(m), 16 * |m.entries|;
      && s[0] == (if m.flags.reboot then 128 else 0) + (if m.flags.unicast then 64 else 0) && s[1..4] == [0, 0, 0]
      && s[4..8] == BeU32(n % 0x1_0000_0000)
      && (forall i :: 0 <= i < |m.entries| ==> s[8 + 16 * i..24 + 16 * i] == EntryBytes(m.entries[i]))
      && s[8 + n..12 + n] == BeU32(|OptionsBytes(m.options)| % 0x1_0000_0000)
      && s[12 + n..] == OptionsBytes(m.options)
  {
    hide EntriesBytes, OptionsBytes, OptionsSize, BeU32, EntryBytes;
    var s, n := SdBytes(m), 16 * |m.entries|;
    PrintedHolds(m, []);
    assert s + [] == s;
    HoldsBoth(s, 0, [FlagsByte(m.flags), 0, 0, 0], BeU32(n % TWO32));
    assert s[0] == s[0..4][0] && s[1..4] == s[0..4][1..];
    forall i | 0 <= i < |m.entries|
      ensures s[8 + 16 * i..24 + 16 * i] == EntryBytes(m.entries[i])
    {
      EntryAt(m.entries, i);
      SliceOfSlice(s, 8, n, 16 * i, 16 * i + 16);
    }
  }

  // ---- What the reader makes of an options array -----------------------------------------------------------

  predicate Ipv4Type(kind: byte) {
    kind in {0x04, 0x14}
  }

  predicate Ipv6Type(kind: byte) {
    kind in {0x06, 0x16}
  }

  /** Bytes whose length field counts all but the first three, and which are long enough for their type. */
  predicate Record(r: seq<byte>) {
    && |r| >= 3 && ReadU16(r, 0) == |r| - 3
    && (Ipv4Type(r[2]) ==> |r| >= 12) && (Ipv6Type(r[2]) ==> |r| >= 24)
  }

  /** Records, the last of which has a complete header of four bytes. */
  ghost predicate Records(rs: seq<seq<byte>>) {
    (forall i :: 0 <= i < |rs| ==> Record(rs[i])) && (rs != [] ==> |rs[|rs| - 1]| >= 4)
  }

  /** The option in a record of a known type, nothing in any other. */
  function OptionIn(r: seq<byte>): seq<O.SdOption>
    requires Record(r)
  {
    if Ipv4Type(r[2]) then [O.Ipv4(r[2], r[4..8], r[9], ReadU16(r, 10))]
    else if Ipv6Type(r[2]) then [O.Ipv6(r[2], r[4..20], r[21], ReadU16(r, 22))]
    else []
  }

  function OptionsIn(rs: seq<seq<byte>>): seq<O.SdOption>
    requires Records(rs)
    decreases |rs|
  {
    if |rs| == 0 then [] else OptionIn(rs[0]) + OptionsIn(rs[1..])
  }

  function Concat(rs: seq<seq<byte>>): seq<byte>
    decreases |rs|
  {
    if |rs| == 0 then [] else rs[0] + Concat(rs[1..])
  }

  lemma SameReads(s: seq<byte>, at: nat, r: seq<byte>, k: nat)
    requires Holds(s, at, r) && k + 2 <= |r|
    ensures ReadU16(s, at + k) == ReadU16(r, k)
  {
    assert s[at + k] == s[at..at + |r|][k] && s[at + k + 1] == s[at..at + |r|][k + 1];
  }

  /** One record is read as the option in it. */
  lemma ReadsRecord(s: seq<byte>, at: nat, r: seq<byte>)
    requires Holds(s, at, r) && Record(r) && at + 4 <= |s|
    ensures O.ReadOptionSize(s, at) == |r| && ReadOption(s, at, |r|) == Ok(OptionIn(r))
  {
    hide ReadU16;
    SameReads(s, at, r, 0);
    assert s[at + 2] == s[at..at + |r|][2];
    if Ipv4Type(r[2]) {
      SameReads(s, at, r, 10);
      SliceOfSlice(s, at, |r|, 4, 8);
      assert s[at + 9] == s[at..at + |r|][9];
    } else if Ipv6Type(r[2]) {
      SameReads(s, at, r, 22);
      SliceOfSlice(s, at, |r|, 4, 20);
      assert s[at + 21] == s[at..at + |r|][21];
    }
  }

  lemma {:induction false} ReadsRecords(s: seq<byte>, at: nat, rs: seq<seq<byte>>)
    requires Records(rs) && Holds(s, at, Concat(rs))
    ensures ReadOptions(s, at, at + |Concat(rs)|) == Ok(OptionsIn(rs))
    decreases |rs|
  {
    hide ReadOption, O.ReadOptionSize, OptionIn, Record;
    if |rs| > 0 {
      HoldsBoth(s, at, rs[0], Concat(rs[1..]));
      HasHeader(rs);
      ReadsRecord(s, at, rs[0]);
      ReadsRecords(s, at + |rs[0]|, rs[1..]);
    }
  }

  lemma {:induction false} HasHeader(rs: seq<seq<byte>>)
    requires Records(rs) && rs != []
    ensures |Concat(rs)| >= 4 && Records(rs[1..]) && |rs[0]| >= 3
    decreases |rs|
  {
    if |rs| > 1 {
      assert rs[1..][|rs| - 2] == rs[|rs| - 1];
      HasHeader(rs[1..]);
    }
  }

  /** A record that the reader accepts. */
  lemma AcceptedRecord(s: seq<byte>, at: nat, size: nat)
    requires at + 4 <= |s| && at + size <= |s| && size == O.ReadOptionSize(s, at) && ReadOption(s, at, size).Ok?
    ensures Record(s[at..at + size])
  {
    hide ReadU16;
    var r := s[at..at + size];
    assert Holds(s, at, r);
    SameReads(s, at, r, 0);
  }

  /** Whatever the reader accepts consists of records. */
  lemma {:induction false} AcceptsRecords(s: seq<byte>, at: nat, end: nat) returns (rs: seq<seq<byte>>)
    requires at <= end <= |s| && ReadOptions(s, at, end).Ok?
    ensures Records(rs) && Concat(rs) == s[at..end]
    decreases end - at
  {
    hide ReadOption, O.ReadOptionSize, Record, Holds;
    if at == end {
      rs := [];
    } else {
      var size := O.ReadOptionSize(s, at);
      AcceptedRecord(s, at, size);
      var rest := AcceptsRecords(s, at + size, end);
      rs := [s[at..at + size]] + rest;
      assert rs[1..] == rest;
      assert s[at..end] == s[at..at + size] + s[at + size..end];
    }
  }

  /**
  The reader returns options exactly if the array consists of records, each with a length field that says
  its size and long enough for its type: the options in the records of known types, in their order. Records
  of all other types are skipped. Otherwise, and only then, the array is truncated.
  */
  lemma OptionsReadExactly(s: seq<byte>, at: nat, end: nat)
    requires at <= end <= |s|
    ensures ReadOptions(s, at, end).Ok? <==> exists rs :: Records(rs) && Concat(rs) == s[at..end]
    ensures forall rs :: Records(rs) && Concat(rs) == s[at..end] ==> ReadOptions(s, at, end) == Ok(OptionsIn(rs))
    ensures ReadOptions(s, at, end) == Err(TruncatedOption)
       <==> !exists rs :: Records(rs) && Concat(rs) == s[at..end]
  {
    hide ReadOptions, Records, Concat;
    OnlyTruncation(s, at, end);
    forall rs | Records(rs) && Concat(rs) == s[at..end]
      ensures ReadOptions(s, at, end) == Ok(OptionsIn(rs))
    {
      assert |Concat(rs)| == end - at;
      ReadsRecords(s, at, rs);
    }
    if ReadOptions(s, at, end).Ok? {
      var rs := AcceptsRecords(s, at, end);
    }
  }

  // ---- The whole payload --------------------------------------------------------------------------------------

  /** Both lengths fit the payload. */
  predicate LengthsFit(s: seq<byte>) {
    && |s| >= 12 && ReadU32(s, 4) % 16 == 0 && 12 + ReadU32(s, 4) <= |s|
    && 12 + ReadU32(s, 4) + ReadU32(s, 8 + ReadU32(s, 4)) <= |s|
  }

  function OptionsArray(s: seq<byte>): seq<byte>
    requires LengthsFit(s)
  {
    var at := 12 + ReadU32(s, 4);
    s[at..at + ReadU32(s, at - 4)]
  }

  /**
  Exactly which payloads are accepted, and what is read from them: the flags in bits 7 and 6 of the first
  byte, an entry for every 16 bytes of the entries array, and the options in the records of the options array.
  */
  lemma AcceptedExactly(s: seq<byte>)
    ensures Deserialized(s).Ok? <==> LengthsFit(s) && exists rs :: Records(rs) && Concat(rs) == OptionsArray(s)
    ensures Deserialized(s) == Err(TruncatedOption)
       <==> LengthsFit(s) && !exists rs :: Records(rs) && Concat(rs) == OptionsArray(s)
    ensures Deserialized(s).Ok? ==>
      var m := Deserialized(s).value;
      && m.flags == Flags(s[0] >= 128, s[0] / 64 % 2 == 1)
      && 16 * |m.entries| == ReadU32(s, 4)
      && (forall i :: 0 <= i < |m.entries| ==> m.entries[i] == ReadEntry(s, 8 + 16 * i))
      && (forall rs :: Records(rs) && Concat(rs) == OptionsArray(s) ==> m.options == OptionsIn(rs))
  {
    hide ReadU32, ReadOptions, ReadEntry, Records, Concat, FlagsOf;
    if LengthsFit(s) {
      var at := 12 + ReadU32(s, 4);
      WrapIsHarmless(ReadU32(s, 4));
      OptionsReadExactly(s, at, at + ReadU32(s, at - 4));
      FlagBits(s[0]);
    } else {
      ErrorsAreExact(s);
    }
  }

  lemma FlagBits(b: byte)
    ensures FlagsOf(b) == Flags(b >= 128, b / 64 % 2 == 1)
  {
  }

  // ---- Known options among others -------------------------------------------------------------------------------

  /** What a sender may put into the options array: an option of a known type, or a record of another type. */
  datatype Piece = Known(o: O.SdOption) | Other(bytes: seq<byte>)

  ghost predicate Sendable(p: Piece) {
    match p
    case Known(o) => O.Storable(o)
    case Other(r) => |r| >= 4 && ReadU16(r, 0) == |r| - 3 && r[2] !in {0x04, 0x06, 0x14, 0x16}
  }

  function PieceBytes(p: Piece): seq<byte> {
    match p
    case Known(o) => O.OptionBytes(o)
    case Other(r) => r
  }

  function AllPieces(ps: seq<Piece>): (rs: seq<seq<byte>>)
    ensures |rs| == |ps|
  {
    seq(|ps|, i requires 0 <= i < |ps| => PieceBytes(ps[i]))
  }

  function KnownIn(ps: seq<Piece>): seq<O.SdOption>
    decreases |ps|
  {
    if |ps| == 0 then []
    else if ps[0].Known? then [ps[0].o] + KnownIn(ps[1..])
    else KnownIn(ps[1..])
  }

  lemma KnownIsRecord(o: O.SdOption)
    requires O.Storable(o)
    ensures Record(O.OptionBytes(o)) && |O.OptionBytes(o)| >= 4 && OptionIn(O.OptionBytes(o)) == [o]
  {
    var w := O.OptionBytes(o);
    assert w[0..O.Size(o)] == w;
    O.OptionRoundTrip(w, 0, o);
  }

  lemma {:induction false} PiecesAreRecords(ps: seq<Piece>)
    requires forall i :: 0 <= i < |ps| ==> Sendable(ps[i])
    ensures Records(AllPieces(ps)) && OptionsIn(AllPieces(ps)) == KnownIn(ps)
    decreases |ps|
  {
    hide O.OptionBytes, O.Storable, OptionIn, Record;
    forall i | 0 <= i < |ps|
      ensures Record(PieceBytes(ps[i])) && |PieceBytes(ps[i])| >= 4
      ensures OptionIn(PieceBytes(ps[i])) == if ps[i].Known? then [ps[i].o] else []
    {
      PieceIsRecord(ps[i]);
    }
    if |ps| > 0 {
      assert AllPieces(ps)[1..] == AllPieces(ps[1..]);
      PiecesAreRecords(ps[1..]);
    }
  }

  lemma PieceIsRecord(p: Piece)
    requires Sendable(p)
    ensures Record(PieceBytes(p)) && |PieceBytes(p)| >= 4
    ensures OptionIn(PieceBytes(p)) == if p.Known? then [p.o] else []
  {
    hide O.OptionBytes, O.Storable;
    if p.Known? {
      KnownIsRecord(p.o);
    }
  }

  /**
  Forward compatibility: a payload with options of known types and any well-sized records of other types,
  mixed in any order, is read as the message with exactly the known options, in their order.
  */
  lemma OthersAreSkipped(flags: Flags, es: seq<Entry>, ps: seq<Piece>, tail: seq<byte>)
    requires (forall i :: 0 <= i < |ps| ==> Sendable(ps[i])) && StorableEntries(es)
    requires 16 * |es| < 0x1_0000_0000 && |Concat(AllPieces(ps))| < 0x1_0000_0000
    ensures
      var array_ := Concat(AllPieces(ps));
      var s := [FlagsByte(flags), 0, 0, 0] + BeU32(16 * |es|) + EntriesBytes(es) + BeU32(|array_|) + array_ + tail;
      Deserialized(s) == Ok(Message(flags, es, KnownIn(ps)))
  {
    hide Records, Concat, AllPieces, EntriesBytes, BeU32, FlagsByte, Deserialized, Holds, Sendable, StorableEntries;
    var array_, n := Concat(AllPieces(ps)), 16 * |es|;
    var head := [FlagsByte(flags), 0, 0, 0];
    PayloadHolds(head, BeU32(n), EntriesBytes(es), BeU32(|array_|), array_, tail);
    ReadsPayload(head + BeU32(n) + EntriesBytes(es) + BeU32(|array_|) + array_ + tail, flags, es, ps);
  }

  lemma ReadsPayload(s: seq<byte>, flags: Flags, es: seq<Entry>, ps: seq<Piece>)
    requires (forall i :: 0 <= i < |ps| ==> Sendable(ps[i])) && StorableEntries(es)
    requires 16 * |es| < 0x1_0000_0000 && |Concat(AllPieces(ps))| < 0x1_0000_0000
    requires Holds(s, 0, [FlagsByte(flags), 0, 0, 0]) && Holds(s, 4, BeU32(16 * |es|)) && Holds(s, 8, EntriesBytes(es))
    requires Holds(s, 8 + 16 * |es|, BeU32(|Concat(AllPieces(ps))|))
    requires Holds(s, 12 + 16 * |es|, Concat(AllPieces(ps)))
    ensures Deserialized(s) == Ok(Message(flags, es, KnownIn(ps)))
  {
    hide Records, Concat, AllPieces, EntriesBytes, BeU32, ReadU32, FlagsByte, Deserialized, ReadEntry;
    hide Sendable, StorableEntries, ReadEntries, FlagsOf, ReadOptions, Holds, OptionsIn, KnownIn;
    var m, n := |Concat(AllPieces(ps))|, 16 * |es|;
    HeldU32(s, 4, n);
    HeldU32(s, 8 + n, m);
    HeldFlags(s, flags);
    HeldInside(s, 12 + n, Concat(AllPieces(ps)));
    EntriesRoundTrip(s, 8, es);
    PiecesAreRecords(ps);
    ReadsRecords(s, 12 + n, AllPieces(ps));
    LengthsSuffice(s, n, m);
  }

  lemma HeldU32(s: seq<byte>, at: nat, v: u32)
    requires Holds(s, at, BeU32(v))
    ensures at + 4 <= |s| && ReadU32(s, at) == v
  {
    hide ReadU32, BeU32;
    ReadWrittenU32(s, at, v);
  }

  lemma HeldFlags(s: seq<byte>, flags: Flags)
    requires Holds(s, 0, [FlagsByte(flags), 0, 0, 0])
    ensures |s| >= 4 && FlagsOf(s[0]) == flags
  {
    hide FlagsOf, FlagsByte;
    FlagsRoundTrip(flags);
    assert s[0] == s[0..4][0];
  }

  lemma HeldInside(s: seq<byte>, at: nat, w: seq<byte>)
    requires Holds(s, at, w)
    ensures at + |w| <= |s|
  {
  }

  lemma PayloadHolds(a: seq<byte>, b: seq<byte>, c: seq<byte>, d: seq<byte>, e: seq<byte>, tail: seq<byte>)
    ensures
      var s := a + b + c + d + e + tail;
      && Holds(s, 0, a) && Holds(s, |a|, b) && Holds(s, |a| + |b|, c) && Holds(s, |a| + |b| + |c|, d)
      && Holds(s, |a| + |b| + |c| + |d|, e)
  {
    var s := a + b + c + d + e + tail;
    assert Holds(s, 0, a + b + c + d + e);
    HoldsBoth(s, 0, a + b + c + d, e);
    HoldsBoth(s, 0, a + b + c, d);
    HoldsBoth(s, 0, a + b, c);
    HoldsBoth(s, 0, a, b);
  }

  lemma LengthsSuffice(s: seq<byte>, n: u32, m: u32)
    requires |s| >= 12 && ReadU32(s, 4) == n && n % 16 == 0 && 12 + n + m <= |s| && ReadU32(s, 8 + n) == m
    requires ReadOptions(s, 12 + n, 12 + n + m).Ok?
    ensures
      Deserialized(s)
      == Ok(Message(FlagsOf(s[0]), ReadEntries(s, 8, n / 16), ReadOptions(s, 12 + n, 12 + n + m).value))
  {
    hide ReadU32, ReadOptions, ReadEntry;
    WrapIsHarmless(n);
  }
}
