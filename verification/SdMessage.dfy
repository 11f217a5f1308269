/** The Service Discovery payload: flags, entries array, options array. */
module SdMessage {
  import opened Bytes
  import opened SdEntry
  import O = SdOption

  const MIN_PAYLOAD_SIZE := 12

  datatype Flags = Flags(reboot: bool, unicast: bool)

  datatype Message = Message(flags: Flags, entries: seq<Entry>, options: seq<O.SdOption>)

  datatype Error =
    | BufferTooSmall | InvalidEntriesLength | InvalidOptionsLength
    | TruncatedEntry | TruncatedOption | UnknownOptionType

  datatype Result<T> = Ok(value: T) | Err(error: Error)

  // ---- Printing --------------------------------------------------------------------------------------

  function FlagsByte(f: Flags): byte {
    (if f.reboot then 0x80 else 0) + if f.unicast then 0x40 else 0
  }

  function EntriesBytes(es: seq<Entry>): (r: seq<byte>)
    ensures |r| == ENTRY_SIZE * |es|
  {
    if |es| == 0 then [] else EntriesBytes(es[..|es| - 1]) + EntryBytes(es[|es| - 1])
  }

  function OptionsSize(os: seq<O.SdOption>): nat {
    if |os| == 0 then 0 else OptionsSize(os[..|os| - 1]) + O.Size(os[|os| - 1])
  }

  function OptionsBytes(os: seq<O.SdOption>): (r: seq<byte>)
    ensures |r| == OptionsSize(os)
  {
    if |os| == 0 then [] else OptionsBytes(os[..|os| - 1]) + O.OptionBytes(os[|os| - 1])
  }

  function SdSize(m: Message): nat {
    MIN_PAYLOAD_SIZE + ENTRY_SIZE * |m.entries| + OptionsSize(m.options)
  }

  function HeadBytes(m: Message): (r: seq<byte>)
    ensures |r| == 8
  {
    [FlagsByte(m.flags), 0, 0, 0] + BeU32(ENTRY_SIZE * |m.entries| % TWO32)
  }

  /** Both lengths are cut to 32 bits. */
  function SdBytes(m: Message): (r: seq<byte>)
    ensures |r| == SdSize(m)
  {
    HeadBytes(m) + EntriesBytes(m.entries) + BeU32(OptionsSize(m.options) % TWO32) + OptionsBytes(m.options)
  }

  lemma OneMoreEntry(es: seq<Entry>, i: nat)
    requires i < |es|
    ensures EntriesBytes(es[..i + 1]) == EntriesBytes(es[..i]) + EntryBytes(es[i])
  {
    assert es[..i + 1][..i] == es[..i];
  }

  lemma OneMoreOption(os: seq<O.SdOption>, i: nat)
    requires i < |os|
    ensures OptionsBytes(os[..i + 1]) == OptionsBytes(os[..i]) + O.OptionBytes(os[i])
    ensures OptionsSize(os[..i + 1]) == OptionsSize(os[..i]) + O.Size(os[i])
  {
    assert os[..i + 1][..i] == os[..i];
  }

  lemma {:induction false} SizeGrows(os: seq<O.SdOption>, i: nat)
    requires i <= |os|
    ensures OptionsSize(os[..i]) <= OptionsSize(os)
    decreases |os|
  {
    if i == |os| {
      assert os[..i] == os;
    } else {
      SizeGrows(os[..|os| - 1], i);
      assert os[..|os| - 1][..i] == os[..i];
    }
  }

  /** Writes behind `start`; 0 and an untouched buffer if there is not enough room. */
  method SerializeSd(buf: array<byte>, start: nat, m: Message) returns (total: nat)
    requires start <= buf.Length
    modifies buf
    ensures total == if buf.Length - start < SdSize(m) then 0 else SdSize(m)
    ensures buf[..] == if total == 0 then old(buf[..]) else Splice(old(buf[..]), start, SdBytes(m))
  {
    hide EntriesBytes, OptionsBytes, OptionsSize, Splice, BeU32, FlagsByte;
    var entriesLen := |m.entries| * ENTRY_SIZE;
    var optionsLen := OptionsLength(m.options);
    if buf.Length - start < MIN_PAYLOAD_SIZE + entriesLen + optionsLen { return 0; }
    ghost var was, done := buf[..], HeadBytes(m);
    WriteBytes(buf, start, [FlagsByte(m.flags), 0, 0, 0]);
    WriteU32(buf, start + 4, entriesLen % TWO32);
    SpliceTwice(was, start, [FlagsByte(m.flags), 0, 0, 0], BeU32(entriesLen % TWO32));
    WriteEntries(buf, start + 8, m.entries);
    SpliceTwice(was, start, done, EntriesBytes(m.entries));
    done := done + EntriesBytes(m.entries);
    WriteU32(buf, start + 8 + entriesLen, optionsLen % TWO32);
    SpliceTwice(was, start, done, BeU32(optionsLen % TWO32));
    done := done + BeU32(optionsLen % TWO32);
    WriteOptions(buf, start + 8 + entriesLen + 4, m.options);
    SpliceTwice(was, start, done, OptionsBytes(m.options));
    total := MIN_PAYLOAD_SIZE + entriesLen + optionsLen;
  }

  method OptionsLength(os: seq<O.SdOption>) returns (n: nat)
    ensures n == OptionsSize(os)
  {
    n := 0;
    for i := 0 to |os|
      invariant n == OptionsSize(os[..i])
    {
      OneMoreOption(os, i);
      n := n + O.Size(os[i]);
    }
    assert os[..|os|] == os;
  }

  method WriteEntries(buf: array<byte>, at: nat, es: seq<Entry>)
    requires at + ENTRY_SIZE * |es| <= buf.Length
    modifies buf
    ensures buf[..] == Splice(old(buf[..]), at, EntriesBytes(es))
  {
    hide EntriesBytes, EntryBytes, Splice;
    var off := at;
    NoBytes();
    SpliceNothing(buf[..], at);
    for i := 0 to |es|
      invariant off == at + ENTRY_SIZE * i
      invariant buf[..] == Splice(old(buf[..]), at, EntriesBytes(es[..i]))
    {
      WriteEntry(buf, off, es[i]);
      OneMoreEntry(es, i);
      SpliceTwice(old(buf[..]), at, EntriesBytes(es[..i]), EntryBytes(es[i]));
      off := off + ENTRY_SIZE;
    }
    assert es[..|es|] == es;
  }

  method WriteOptions(buf: array<byte>, at: nat, os: seq<O.SdOption>)
    requires at + OptionsSize(os) <= buf.Length
    modifies buf
    ensures buf[..] == Splice(old(buf[..]), at, OptionsBytes(os))
  {
    hide OptionsBytes, OptionsSize, O.OptionBytes, Splice;
    var off := at;
    NoBytes();
    SpliceNothing(buf[..], at);
    for i := 0 to |os|
      invariant off == at + OptionsSize(os[..i])
      invariant off <= buf.Length
      invariant buf[..] == Splice(old(buf[..]), at, OptionsBytes(os[..i]))
    {
      OneMoreOption(os, i);
      SizeGrows(os, i + 1);
      var size := O.WriteOption(buf, off, os[i]);
      SpliceTwice(old(buf[..]), at, OptionsBytes(os[..i]), O.OptionBytes(os[i]));
      off := off + size;
    }
    assert os[..|os|] == os;
  }

  lemma NoBytes()
    ensures EntriesBytes([]) == [] && OptionsBytes([]) == [] && OptionsSize([]) == 0
  {
  }

  // ---- Parsing ------------------------------------------------------------------------------------------

  function FlagsOf(b: byte): Flags {
    Flags(b / 0x80 % 2 == 1, b / 0x40 % 2 == 1)
  }

  function ReadEntries(s: seq<byte>, at: nat, n: nat): (es: seq<Entry>)
    requires at + ENTRY_SIZE * n <= |s|
    ensures |es| == n
  {
    seq(n, i requires 0 <= i < n => ReadEntry(s, at + ENTRY_SIZE * i))
  }

  /** One option at `at`: at most one for a known type, none for an unknown one. */
  function ReadOption(s: seq<byte>, at: nat, size: nat): Result<seq<O.SdOption>>
    requires at + O.OPTION_HEADER_SIZE <= |s| && at + size <= |s|
  {
    var kind := s[at + 2];
    if kind == O.IPV4_ENDPOINT || kind == O.IPV4_MULTICAST then
      if size < O.IPV4_SIZE then Err(TruncatedOption) else Ok([O.ReadIpv4(s, at)])
    else if kind == O.IPV6_ENDPOINT || kind == O.IPV6_MULTICAST then
      if size < O.IPV6_SIZE then Err(TruncatedOption) else Ok([O.ReadIpv6(s, at)])
    else Ok([])
  }

  /** The options in s[at..end]. */
  function ReadOptions(s: seq<byte>, at: nat, end: nat): Result<seq<O.SdOption>>
    requires at <= end <= |s|
    decreases end - at
  {
    if at == end then Ok([])
    else if at + O.OPTION_HEADER_SIZE > end then Err(TruncatedOption)
    else
      var size := O.ReadOptionSize(s, at);
      if at + size > end then Err(TruncatedOption)
      else match ReadOption(s, at, size)
        case Err(e) => Err(e)
        case Ok(first) =>
          match ReadOptions(s, at + size, end)
          case Err(e) => Err(e)
          case Ok(rest) => Ok(first + rest)
  }

  /** What the parser returns for a payload, with its 32-bit sum written out. */
  function Deserialized(s: seq<byte>): Result<Message> {
    if |s| < MIN_PAYLOAD_SIZE then Err(BufferTooSmall)
    else
      var n := ReadU32(s, 4);
      if (8 + n + 4) % TWO32 > |s| || n % ENTRY_SIZE != 0 then Err(InvalidEntriesLength)
      else if 8 + n > |s| then Err(TruncatedEntry)
      else if 8 + n + 4 > |s| then Err(InvalidOptionsLength)
      else
        var at, m := 12 + n, ReadU32(s, 8 + n);
        if at + m > |s| then Err(InvalidOptionsLength)
        else match ReadOptions(s, at, at + m)
          case Err(e) => Err(e)
          case Ok(os) => Ok(Message(FlagsOf(s[0]), ReadEntries(s, 8, n / ENTRY_SIZE), os))
  }

  method DeserializeSd(s: seq<byte>) returns (r: Result<Message>)
    ensures r == Deserialized(s)
  {
    hide ReadU32, ReadEntry, ReadOption, ReadOptions, FlagsOf;
    if |s| < MIN_PAYLOAD_SIZE { return Err(BufferTooSmall); }
    var flags := FlagsOf(s[0]);
    var entriesLen := ReadU32(s, 4);
    if (8 + entriesLen + 4) % TWO32 > |s| { return Err(InvalidEntriesLength); }
    if entriesLen % ENTRY_SIZE != 0 { return Err(InvalidEntriesLength); }
    var count := entriesLen / ENTRY_SIZE;
    var entries: seq<Entry> := [];
    var off := 8;
    for i := 0 to count
      invariant off == 8 + ENTRY_SIZE * i <= |s|
      invariant entries == ReadEntries(s, 8, i)
    {
      if off + ENTRY_SIZE > |s| { return Err(TruncatedEntry); }
      entries := entries + [ReadEntry(s, off)];
      off := off + ENTRY_SIZE;
    }
    if off + 4 > |s| { return Err(InvalidOptionsLength); }
    var optionsLen := ReadU32(s, off);
    off := off + 4;
    if off + optionsLen > |s| { return Err(InvalidOptionsLength); }
    var end := off + optionsLen;
    var options: seq<O.SdOption> := [];
    ghost var start := off;
    OptionsStart(s, start, end);
    while off < end
      invariant start <= off <= end
      invariant ReadOptions(s, start, end) == After(options, ReadOptions(s, off, end))
    {
      if off + O.OPTION_HEADER_SIZE > end {
        OptionsStep(s, off, end, options);
        return Err(TruncatedOption);
      }
      var size := O.ReadOptionSize(s, off);
      OptionsStep(s, off, end, options);
      if off + size > end { return Err(TruncatedOption); }
      var first := ReadOption(s, off, size);
      if first.Err? { return Err(first.error); }
      options := options + first.value;
      off := off + size;
    }
    OptionsEnd(s, end, options);
    return Ok(Message(flags, entries, options));
  }

  function After(front: seq<O.SdOption>, r: Result<seq<O.SdOption>>): Result<seq<O.SdOption>> {
    match r
    case Err(e) => Err(e)
    case Ok(rest) => Ok(front + rest)
  }

  lemma OptionsStart(s: seq<byte>, at: nat, end: nat)
    requires at <= end <= |s|
    ensures ReadOptions(s, at, end) == After([], ReadOptions(s, at, end))
  {
    var r := ReadOptions(s, at, end);
    assert r.Ok? ==> [] + r.value == r.value;
  }

  lemma OptionsEnd(s: seq<byte>, end: nat, front: seq<O.SdOption>)
    requires end <= |s|
    ensures After(front, ReadOptions(s, end, end)) == Ok(front)
  {
    assert front + [] == front;
  }

  lemma OptionsStep(s: seq<byte>, at: nat, end: nat, front: seq<O.SdOption>)
    requires at < end <= |s|
    ensures
      var here := After(front, ReadOptions(s, at, end));
      if at + O.OPTION_HEADER_SIZE > end then here == Err(TruncatedOption)
      else
        var size := O.ReadOptionSize(s, at);
        if at + size > end then here == Err(TruncatedOption)
        else
          var first := ReadOption(s, at, size);
          here == if first.Err? then Err(first.error) else After(front + first.value, ReadOptions(s, at + size, end))
  {
    if at + O.OPTION_HEADER_SIZE <= end && at + O.ReadOptionSize(s, at) <= end {
      var size := O.ReadOptionSize(s, at);
      var first, rest := ReadOption(s, at, size), ReadOptions(s, at + size, end);
      if first.Ok? && rest.Ok? {
        assert front + (first.value + rest.value) == front + first.value + rest.value;
      }
    }
  }
}
