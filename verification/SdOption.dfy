/** Service Discovery options: IPv4 and IPv6 endpoints. */
module SdOption {
  import opened Bytes

  const OPTION_HEADER_SIZE := 4
  const IPV4_SIZE := 12
  const IPV6_SIZE := 24

  const IPV4_ENDPOINT: byte := 0x04
  const IPV6_ENDPOINT: byte := 0x06
  const IPV4_MULTICAST: byte := 0x14
  const IPV6_MULTICAST: byte := 0x16

  type Ipv4Address = a: seq<byte> | |a| == 4 witness [0, 0, 0, 0]
  type Ipv6Address = a: seq<byte> | |a| == 16 witness [0, 0, 0, 0, 0, 0, 0, 0, 0, 0, 0, 0, 0, 0, 0, 0]

  datatype SdOption =
    | Ipv4(kind: byte, address4: Ipv4Address, protocol: byte, port: u16)
    | Ipv6(kind: byte, address6: Ipv6Address, protocol: byte, port: u16)

  function Size(o: SdOption): nat {
    if o.Ipv4? then IPV4_SIZE else IPV6_SIZE
  }

  function Address(o: SdOption): (r: seq<byte>)
    ensures |r| == if o.Ipv4? then 4 else 16
  {
    if o.Ipv4? then o.address4 else o.address6
  }

  /** The length field counts all but the first three bytes. */
  function OptionBytes(o: SdOption): (r: seq<byte>)
    ensures |r| == Size(o)
  {
    BeU16(Size(o) - 3) + [o.kind, 0] + Address(o) + [0, o.protocol] + BeU16(o.port)
  }

  method WriteOption(buf: array<byte>, at: nat, o: SdOption) returns (size: nat)
    requires at + Size(o) <= buf.Length
    modifies buf
    ensures size == Size(o)
    ensures buf[..] == Splice(old(buf[..]), at, OptionBytes(o))
  {
    hide Splice, BeU16;
    ghost var was := buf[..];
    var length: u16 := if o.Ipv4? then 0x0009 else 0x0015;
    size := Size(o);
    WriteU16(buf, at, length);
    WriteBytes(buf, at + 2, [o.kind, 0]);
    WriteBytes(buf, at + 4, Address(o));
    WriteBytes(buf, at + size - 4, [0, o.protocol]);
    WriteU16(buf, at + size - 2, o.port);
    SpliceTwice(was, at, BeU16(length), [o.kind, 0]);
    SpliceTwice(was, at, BeU16(length) + [o.kind, 0], Address(o));
    SpliceTwice(was, at, BeU16(length) + [o.kind, 0] + Address(o), [0, o.protocol]);
    SpliceTwice(was, at, BeU16(length) + [o.kind, 0] + Address(o) + [0, o.protocol], BeU16(o.port));
  }

  // ---- Reading -----------------------------------------------------------------------------------

  function ReadOptionSize(s: seq<byte>, at: nat): (size: nat)
    requires at + OPTION_HEADER_SIZE <= |s|
    ensures size >= 3
  {
    ReadU16(s, at) + 3
  }

  function ReadIpv4(s: seq<byte>, at: nat): SdOption
    requires at + IPV4_SIZE <= |s|
  {
    Ipv4(s[at + 2], s[at + 4..at + 8], s[at + 9], ReadU16(s, at + 10))
  }

  function ReadIpv6(s: seq<byte>, at: nat): SdOption
    requires at + IPV6_SIZE <= |s|
  {
    Ipv6(s[at + 2], s[at + 4..at + 20], s[at + 21], ReadU16(s, at + 22))
  }

  /** The option type matches the variant, so that the reader picks the same variant. */
  predicate Storable(o: SdOption) {
    if o.Ipv4? then o.kind == IPV4_ENDPOINT || o.kind == IPV4_MULTICAST
    else o.kind == IPV6_ENDPOINT || o.kind == IPV6_MULTICAST
  }

  lemma OptionRoundTrip(s: seq<byte>, at: nat, o: SdOption)
    requires at + Size(o) <= |s| && s[at..at + Size(o)] == OptionBytes(o)
    ensures ReadOptionSize(s, at) == Size(o) && s[at + 2] == o.kind
    ensures (if o.Ipv4? then ReadIpv4(s, at) else ReadIpv6(s, at)) == o
  {
    hide BeU16, ReadU16;
    var n, w := Size(o), OptionBytes(o);
    assert w[..2] == BeU16(n - 3) && w[n - 2..] == BeU16(o.port);
    assert w[4..n - 4] == Address(o);
    SliceOfSlice(s, at, n, 0, 2);
    SliceOfSlice(s, at, n, 4, n - 4);
    SliceOfSlice(s, at, n, n - 2, n);
    var v := s[at..at + n];
    assert s[at + 2] == v[2] && s[at + (n - 3)] == v[n - 3];
    ReadWrittenU16(s, at, n - 3);
    ReadWrittenU16(s, at + n - 2, o.port);
  }
}
