/** What the Service Discovery parser accepts, and which messages survive the wire. */
module SdRoundTrip {
  import opened Bytes
  import opened SdEntry
  import opened SdMessage
  import O = SdOption
  import Framer
  import H = Header

  // ---- Errors ------------------------------------------------------------------------------------------

  /**
   The entries length is refused exactly when, without any wrap-around, it does not fit or is no
   multiple of 16: the 32-bit sum wraps only for lengths that the second test refuses. The options
   length is refused exactly when it does not fit, and two of the parser's errors never happen.
   */
  lemma ErrorsAreExact(s: seq<byte>)
    ensures Deserialized(s) == Err(BufferTooSmall) <==> |s| < MIN_PAYLOAD_SIZE
    ensures Deserialized(s) == Err(InvalidEntriesLength) <==>
      |s| >= MIN_PAYLOAD_SIZE && (12 + ReadU32(s, 4) > |s| || ReadU32(s, 4) % ENTRY_SIZE != 0)
    ensures Deserialized(s) == Err(InvalidOptionsLength) <==>
      && |s| >= MIN_PAYLOAD_SIZE && 12 + ReadU32(s, 4) <= |s| && ReadU32(s, 4) % ENTRY_SIZE == 0
      && 12 + ReadU32(s, 4) + ReadU32(s, 8 + ReadU32(s, 4)) > |s|
    ensures Deserialized(s) != Err(TruncatedEntry) && Deserialized(s) != Err(UnknownOptionType)
  {
    hide ReadU32, ReadOptions;
    if |s| >= MIN_PAYLOAD_SIZE {
      var n := ReadU32(s, 4);
      WrapIsHarmless(n);
      if 12 + n <= |s| && n % ENTRY_SIZE == 0 && 12 + n + ReadU32(s, 8 + n) <= |s| {
        OnlyTruncation(s, 12 + n, 12 + n + ReadU32(s, 8 + n));
      }
    }
  }

  lemma WrapIsHarmless(n: u32)
    ensures n % ENTRY_SIZE == 0 ==> (8 + n + 4) % TWO32 == 12 + n
  {
  }

  lemma {:induction false} OnlyTruncation(s: seq<byte>, at: nat, end: nat)
    requires at <= end <= |s|
    ensures ReadOptions(s, at, end).Err? ==> ReadOptions(s, at, end).error == TruncatedOption
    decreases end - at
  {
    if at + O.OPTION_HEADER_SIZE <= end && at + O.ReadOptionSize(s, at) <= end {
      OnlyTruncation(s, at + O.ReadOptionSize(s, at), end);
    }
  }

  // ---- Everything parsed can be printed --------------------------------------------------------------------

  ghost predicate StorableEntries(es: seq<Entry>) {
    forall i :: 0 <= i < |es| ==> Storable(es[i])
  }

  ghost predicate StorableOptions(os: seq<O.SdOption>) {
    forall i :: 0 <= i < |os| ==> O.Storable(os[i])
  }

  /** Every entry and option fits its wire form, and both lengths fit 32 bits. */
  ghost predicate StorableMessage(m: Message) {
    && StorableEntries(m.entries) && StorableOptions(m.options)
    && ENTRY_SIZE * |m.entries| < TWO32 && OptionsSize(m.options) < TWO32
  }

  lemma {:induction false} SizeAppend(a: seq<O.SdOption>, b: seq<O.SdOption>)
    ensures OptionsSize(a + b) == OptionsSize(a) + OptionsSize(b)
    decreases |b|
  {
    if |b| == 0 {
      assert a + b == a;
    } else {
      SizeAppend(a, b[..|b| - 1]);
      assert (a + b)[..|a + b| - 1] == a + b[..|b| - 1];
    }
  }

  lemma OneOption(s: seq<byte>, at: nat, size: nat)
    requires at + O.OPTION_HEADER_SIZE <= |s| && at + size <= |s| && ReadOption(s, at, size).Ok?
    ensures StorableOptions(ReadOption(s, at, size).value) && OptionsSize(ReadOption(s, at, size).value) <= size
  {
    var os := ReadOption(s, at, size).value;
    assert |os| == 1 ==> os[..0] == [] && OptionsSize(os) == O.Size(os[0]);
  }

  lemma {:induction false} ParsedOptionsStorable(s: seq<byte>, at: nat, end: nat)
    requires at <= end <= |s| && ReadOptions(s, at, end).Ok?
    ensures StorableOptions(ReadOptions(s, at, end).value) && OptionsSize(ReadOptions(s, at, end).value) <= end - at
    decreases end - at
  {
    hide ReadOption, O.ReadOptionSize;
    if at < end {
      var size := O.ReadOptionSize(s, at);
      OneOption(s, at, size);
      ParsedOptionsStorable(s, at + size, end);
      SizeAppend(ReadOption(s, at, size).value, ReadOptions(s, at + size, end).value);
    }
  }

  /** Whatever the parser returns is storable and prints into no more bytes than were parsed. */
  lemma ParsedIsStorable(s: seq<byte>)
    requires Deserialized(s).Ok?
    ensures StorableMessage(Deserialized(s).value) && SdSize(Deserialized(s).value) <= |s|
  {
    hide ReadEntry, ReadOptions, OptionsSize, ReadU32, Storable, O.Storable;
    var n := ReadU32(s, 4);
    WrapIsHarmless(n);
    ParsedOptionsStorable(s, 12 + n, 12 + n + ReadU32(s, 8 + n));
    var es := Deserialized(s).value.entries;
    forall i | 0 <= i < |es|
      ensures Storable(es[i])
    {
      ReadEntryRoundTrip(s, 8 + ENTRY_SIZE * i);
    }
  }

  // ---- Round trip -------------------------------------------------------------------------------------------

  lemma {:induction false} EntriesRoundTrip(s: seq<byte>, at: nat, es: seq<Entry>)
    requires Holds(s, at, EntriesBytes(es)) && StorableEntries(es)
    ensures ReadEntries(s, at, |es|) == es
    decreases |es|
  {
    hide EntryBytes, ReadEntry, Storable;
    if |es| > 0 {
      var n := |es| - 1;
      HoldsBoth(s, at, EntriesBytes(es[..n]), EntryBytes(es[n]));
      EntriesRoundTrip(s, at, es[..n]);
      EntryRoundTrip(s, at + ENTRY_SIZE * n, es[n]);
      assert ReadEntries(s, at, |es|) == ReadEntries(s, at, n) + [ReadEntry(s, at + ENTRY_SIZE * n)];
      assert es == es[..n] + [es[n]];
    }
  }

  lemma ReadsOneOption(s: seq<byte>, at: nat, o: O.SdOption)
    requires Holds(s, at, O.OptionBytes(o)) && O.Storable(o)
    ensures O.ReadOptionSize(s, at) == O.Size(o) && ReadOption(s, at, O.Size(o)) == Ok([o])
  {
    hide O.OptionBytes, O.ReadIpv4, O.ReadIpv6, O.ReadOptionSize;
    O.OptionRoundTrip(s, at, o);
  }

  lemma {:induction false} OptionsRoundTrip(s: seq<byte>, at: nat, os: seq<O.SdOption>, i: nat)
    requires Holds(s, at, OptionsBytes(os)) && StorableOptions(os) && i <= |os|
    requires OptionsSize(os[..i]) <= OptionsSize(os)
    ensures ReadOptions(s, at + OptionsSize(os[..i]), at + OptionsSize(os)) == Ok(os[i..])
    decreases |os| - i
  {
    hide O.OptionBytes, O.ReadOptionSize, ReadOption, O.Storable, OptionsSize, OptionsBytes;
    if i == |os| {
      assert os[..i] == os;
    } else {
      var here := at + OptionsSize(os[..i]);
      OneMoreOption(os, i);
      SizeGrows(os, i + 1);
      BytesGrow(os, i + 1);
      HoldsPart(s, at, OptionsBytes(os), 0, OptionsSize(os[..i + 1]));
      HoldsBoth(s, at, OptionsBytes(os[..i]), O.OptionBytes(os[i]));
      ReadsOneOption(s, here, os[i]);
      OptionsRoundTrip(s, at, os, i + 1);
      assert [os[i]] + os[i + 1..] == os[i..];
    }
  }

  lemma {:induction false} BytesGrow(os: seq<O.SdOption>, i: nat)
    requires i <= |os| && OptionsSize(os[..i]) <= OptionsSize(os)
    ensures OptionsBytes(os)[0..OptionsSize(os[..i])] == OptionsBytes(os[..i])
    decreases |os|
  {
    hide O.OptionBytes, OptionsSize;
    if i == |os| {
      assert os[..i] == os;
    } else {
      var front := os[..|os| - 1];
      assert front[..i] == os[..i];
      SizeGrows(front, i);
      BytesGrow(front, i);
    }
  }

  lemma FlagsRoundTrip(f: Flags)
    ensures FlagsOf(FlagsByte(f)) == f
  {
  }

  lemma HeadHeld(s: seq<byte>, m: Message)
    requires Holds(s, 0, HeadBytes(m)) && ENTRY_SIZE * |m.entries| < TWO32
    ensures FlagsOf(s[0]) == m.flags && ReadU32(s, 4) == ENTRY_SIZE * |m.entries|
  {
    hide FlagsOf, FlagsByte, BeU32, ReadU32;
    var n: u32 := ENTRY_SIZE * |m.entries|;
    HoldsBoth(s, 0, [FlagsByte(m.flags), 0, 0, 0], BeU32(n));
    assert s[0] == s[0..4][0];
    FlagsRoundTrip(m.flags);
    ReadWrittenU32(s, 4, n);
  }

  lemma PrintedHolds(m: Message, tail: seq<byte>)
    ensures
      var s, n := SdBytes(m) + tail, ENTRY_SIZE * |m.entries|;
      && Holds(s, 0, HeadBytes(m)) && Holds(s, 8, EntriesBytes(m.entries))
      && Holds(s, 8 + n, BeU32(OptionsSize(m.options) % TWO32)) && Holds(s, 12 + n, OptionsBytes(m.options))
  {
    hide HeadBytes, EntriesBytes, OptionsBytes, BeU32, OptionsSize;
    var s, n := SdBytes(m) + tail, ENTRY_SIZE * |m.entries|;
    var length := BeU32(OptionsSize(m.options) % TWO32);
    assert Holds(s, 0, SdBytes(m));
    HoldsBoth(s, 0, HeadBytes(m) + EntriesBytes(m.entries) + length, OptionsBytes(m.options));
    HoldsBoth(s, 0, HeadBytes(m) + EntriesBytes(m.entries), length);
    HoldsBoth(s, 0, HeadBytes(m), EntriesBytes(m.entries));
  }

  lemma StorableRoundTrip(m: Message, tail: seq<byte>)
    requires StorableMessage(m)
    ensures Deserialized(SdBytes(m) + tail) == Ok(m)
  {
    hide HeadBytes, EntriesBytes, OptionsBytes, BeU32, ReadU32, ReadEntry, ReadOptions, FlagsOf, StorableEntries,
      StorableOptions, Holds, OptionsSize;
    var s, n := SdBytes(m) + tail, ENTRY_SIZE * |m.entries|;
    PrintedHolds(m, tail);
    HeadHeld(s, m);
    OptionsLengthHeld(s, 8 + n, m);
    EntriesRoundTrip(s, 8, m.entries);
    NoBytes();
    assert m.options[..0] == [] && m.options[0..] == m.options;
    OptionsRoundTrip(s, 12 + n, m.options, 0);
  }

  lemma OptionsLengthHeld(s: seq<byte>, at: nat, m: Message)
    requires Holds(s, at, BeU32(OptionsSize(m.options) % TWO32)) && OptionsSize(m.options) < TWO32
    ensures at + 4 <= |s| && ReadU32(s, at) == OptionsSize(m.options)
  {
    hide ReadU32, BeU32;
    ReadWrittenU32(s, at, OptionsSize(m.options));
  }

  /** A message survives printing and parsing, whatever follows it, exactly when it is storable. */
  lemma SdMessageRoundTrip(m: Message, tail: seq<byte>)
    ensures Deserialized(SdBytes(m) + tail) == Ok(m) <==> StorableMessage(m)
  {
    hide Deserialized, SdBytes, StorableMessage;
    if StorableMessage(m) {
      StorableRoundTrip(m, tail);
    }
    if Deserialized(SdBytes(m) + tail) == Ok(m) {
      ParsedIsStorable(SdBytes(m) + tail);
    }
  }

  /** Printing what was parsed and parsing that again gives the same message. */
  lemma ReprintedParses(s: seq<byte>)
    requires Deserialized(s).Ok?
    ensures Deserialized(SdBytes(Deserialized(s).value)) == Deserialized(s)
  {
    hide Deserialized, SdBytes, StorableMessage;
    var m := Deserialized(s).value;
    ParsedIsStorable(s);
    SdMessageRoundTrip(m, []);
    assert SdBytes(m) + [] == SdBytes(m);
  }

  // ---- What the wire makes of a message ----------------------------------------------------------------------

  function CutEntries(es: seq<Entry>): (cut: seq<Entry>)
    ensures |cut| == |es|
  {
    seq(|es|, i requires 0 <= i < |es| => Cut(es[i]))
  }

  function CutMessage(m: Message): Message {
    m.(entries := CutEntries(m.entries))
  }

  lemma {:induction false} CutEntriesBytes(es: seq<Entry>)
    ensures StorableEntries(CutEntries(es)) && EntriesBytes(CutEntries(es)) == EntriesBytes(es)
    decreases |es|
  {
    hide EntryBytes, Cut, Storable;
    if |es| > 0 {
      var n := |es| - 1;
      CutEntriesBytes(es[..n]);
      CutBytes(es[n]);
      assert CutEntries(es)[..n] == CutEntries(es[..n]);
      assert forall i :: 0 <= i < n ==> CutEntries(es)[i] == CutEntries(es[..n])[i];
    }
  }

  /** Whatever its entries hold, a message that fits, with options of known types, parses to its cut form. */
  lemma PrintedParses(m: Message, tail: seq<byte>)
    requires StorableOptions(m.options) && SdSize(m) < TWO32
    ensures Deserialized(SdBytes(m) + tail) == Ok(CutMessage(m))
  {
    hide EntriesBytes, OptionsBytes, OptionsSize, Deserialized, StorableEntries, StorableOptions;
    CutEntriesBytes(m.entries);
    SdMessageRoundTrip(CutMessage(m), tail);
  }

  // ---- A complete message ---------------------------------------------------------------------------------------

  const SD_SERVICE: u16 := 0xFFFF
  const SD_METHOD: u16 := 0x8100

  /** Client 0, protocol version 1, interface version 1, a notification, no error. */
  function SdHeader(length: u32, session: u16): H.Header {
    H.Header(SD_SERVICE, SD_METHOD, length, 0, session, 1, 1, 2, 0)
  }

  function SdMessageBytes(m: Message, session: u16): (r: seq<byte>)
    ensures |r| == 16 + SdSize(m)
  {
    H.HeaderBytes(SdHeader(H.AnnouncedLength(SdSize(m)), session)) + SdBytes(m)
  }

  /**
  With room for a header but not for the payload, a message with entries is refused; one without entries
  becomes a bare header that announces no payload.
  */
  method BuildSdMessage(buf: array<byte>, m: Message, session: u16) returns (total: nat)
    modifies buf
    ensures buf.Length >= 16 + SdSize(m) ==>
      total == 16 + SdSize(m) && buf[..] == Splice(old(buf[..]), 0, SdMessageBytes(m, session))
    ensures buf.Length < 16 || (buf.Length < 16 + SdSize(m) && m.entries != []) ==>
      total == 0 && buf[..] == old(buf[..])
    ensures 16 <= buf.Length < 16 + SdSize(m) && m.entries == [] ==>
      total == 16 && buf[..] == Splice(old(buf[..]), 0, H.HeaderBytes(SdHeader(8, session)))
  {
    hide SdBytes, H.HeaderBytes, OptionsSize, Splice;
    ghost var was := buf[..];
    if buf.Length < 16 { return 0; }
    var payloadLen := SerializeSd(buf, 16, m);
    if payloadLen == 0 && m.entries != [] { return 0; }
    if payloadLen == 0 {
      payloadLen := SerializeSd(buf, 16, m);
    }
    var view := new H.HeaderView(buf);
    view.Fill(SdHeader(H.AnnouncedLength(payloadLen), session));
    if payloadLen > 0 {
      SpliceBefore(was, H.HeaderBytes(SdHeader(H.AnnouncedLength(payloadLen), session)), SdBytes(m));
    }
    total := 16 + payloadLen;
  }

  /**
   A built message is a notification of service 0xFFFF, method 0x8100, from client 0 with versions 1. It is
   framed as one message exactly if the framer can hold it: although it shares its service id with a magic
   cookie, it is never dropped as one. Its payload parses back to what was printed exactly if that is storable.
   */
  lemma BuiltMessageFrames(m: Message, session: u16)
    requires 16 + SdSize(m) < TWO32
    ensures H.ReadHeader(SdMessageBytes(m, session)) == H.Header(0xFFFF, 0x8100, 8 + SdSize(m), 0, session, 1, 1, 2, 0)
    ensures Framer.WellFormed(Framer.Emitted(SdMessageBytes(m, session))) <==> 16 + SdSize(m) <= 4_194_304
    ensures Deserialized(SdMessageBytes(m, session)[16..]) == Ok(m) <==> StorableMessage(m)
  {
    hide H.HeaderBytes, SdBytes, StorableMessage, ReadU16, ReadU32, Deserialized, H.AnnouncedLength;
    H.AnnouncedFits(SdSize(m));
    H.HeaderRoundTrip(SdHeader(SdSize(m) + 8, session), SdBytes(m));
    SdMessageRoundTrip(m, []);
    assert SdMessageBytes(m, session)[16..] == SdBytes(m) && SdBytes(m) + [] == SdBytes(m);
  }
}
