/** E2E protection profiles: how a payload is sealed by the sender and checked by the receiver. */
module E2eProfile {
  import opened Bytes
  import Crc8
  import Crc32
  import Crc64

  datatype Result = Ok | WrongCrc | WrongSequence | Repeated | NoNewData | Error

  datatype Config01 = Config01(dataId: u16, crcOffset: u16, counterOffset: u16, dataIdMode: u16, maxDelta: u16)

  /** `dataIds[n]` is the data ID byte used with counter value n. */
  datatype Config02 = Config02(dataIds: seq<byte>, maxDelta: u16)
  {
    predicate Valid() {
      |dataIds| == 16
    }
  }

  datatype Config04 = Config04(dataId: u32, minDataLength: u16, maxDataLength: u16, maxDelta: u16)

  datatype Config07 = Config07(dataId: u32, minDataLength: u32, maxDataLength: u32, maxDelta: u32)

  /** What a CRC-valid message means, by its distance from the last one. */
  function Sequence(delta: nat, maxDelta: nat): Result {
    if delta == 0 then Repeated else if delta <= maxDelta then Ok else WrongSequence
  }

  function LowNibble(b: byte): byte {
    b % 16
  }

  /** A byte with its low nibble replaced. */
  function SetLowNibble(b: byte, n: nat): byte {
    b / 16 * 16 + n % 16
  }

  function Without(p: seq<byte>, k: nat): seq<byte> {
    if k < |p| then p[..k] + p[k + 1..] else p
  }

  lemma WithoutGrows(p: seq<byte>, i: nat, k: nat)
    requires i < |p|
    ensures Without(p[..i + 1], k) == if i == k then Without(p[..i], k) else Without(p[..i], k) + [p[i]]
  {
    assert p[..i + 1] == p[..i] + [p[i]];
    if k < i {
      assert p[..i + 1][k + 1..] == p[..i][k + 1..] + [p[i]];
      assert p[..i + 1][..k] == p[..i][..k];
    } else if k == i {
      assert p[..i + 1][..k] == p[..i];
    }
  }

  // ---- Profiles 01 and 02: CRC-8, 4-bit counter ---------------------------------------------

  /** The checksum over the ID bytes and the payload without its CRC byte. */
  function Seal8(id: seq<byte>, p: seq<byte>, crcOffset: nat): byte {
    FromBits(Crc8.Crc(id + Without(p, crcOffset), 0xFF))
  }

  /** The CRC loop of both profiles: one byte at a time, un-finalising the checksum in between. */
  method ComputeSeal8(id: seq<byte>, p: seq<byte>, crcOffset: nat, from: nat) returns (crc: bv8)
    requires from == 0 || (from == 1 && crcOffset == 0 && |p| > 0)
    ensures crc == Crc8.Crc(id + Without(p, crcOffset), 0xFF)
  {
    hide Crc8.Crc, Without;
    var table := Crc8.MakeTable();
    crc := Crc8.SaeJ1850(id, 0xFF, table);
    WithoutNothing(p, crcOffset, from);
    assert id + [] == id;
    for i := from to |p|
      invariant crc == Crc8.Crc(id + Without(p[..i], crcOffset), 0xFF)
    {
      WithoutGrows(p, i, crcOffset);
      if i != crcOffset {
        Crc8.Chains(id + Without(p[..i], crcOffset), [p[i]], 0xFF);
        assert id + Without(p[..i], crcOffset) + [p[i]] == id + Without(p[..i + 1], crcOffset);
        crc := Crc8.SaeJ1850([p[i]], crc ^ 0xFF, table);
      }
    }
    assert p[..|p|] == p;
  }

  lemma WithoutNothing(p: seq<byte>, k: nat, from: nat)
    requires from == 0 || (from == 1 && k == 0 && |p| > 0)
    ensures Without(p[..from], k) == []
  {
  }

  // -- Profile 01

  /** The code indexes the payload with both offsets unchecked. */
  predicate Fits01(p: seq<byte>, cfg: Config01) {
    |p| >= 2 ==> cfg.crcOffset < |p| && cfg.counterOffset < |p|
  }

  function Id01(cfg: Config01): seq<byte> {
    BeU16(cfg.dataId)
  }

  function Protected01(p: seq<byte>, cfg: Config01, counter: byte): (r: seq<byte>)
    requires Fits01(p, cfg)
    ensures |r| == |p|
  {
    if |p| < 2 then p
    else
      var q := p[cfg.counterOffset := SetLowNibble(p[cfg.counterOffset], counter)][cfg.crcOffset := 0];
      q[cfg.crcOffset := Seal8(Id01(cfg), q, cfg.crcOffset)]
  }

  predicate Authentic01(p: seq<byte>, cfg: Config01)
    requires Fits01(p, cfg)
  {
    |p| >= 2 && p[cfg.crcOffset] == Seal8(Id01(cfg), p, cfg.crcOffset)
  }

  function Checked01(p: seq<byte>, cfg: Config01, last: byte): (Result, byte)
    requires Fits01(p, cfg)
  {
    if |p| < 2 then (Error, last)
    else if !Authentic01(p, cfg) then (WrongCrc, last)
    else
      var counter := LowNibble(p[cfg.counterOffset]);
      (Sequence((counter - last) % 16, cfg.maxDelta), counter)
  }

  method Protect01(buf: array<byte>, start: nat, cfg: Config01, counter: byte)
    requires start <= buf.Length && Fits01(buf[start..], cfg)
    modifies buf
    ensures buf[..start] == old(buf[..start])
    ensures buf[start..] == Protected01(old(buf[start..]), cfg, counter)
  {
    if buf.Length - start < 2 { return; }
    buf[start + cfg.counterOffset] := SetLowNibble(buf[start + cfg.counterOffset], counter);
    buf[start + cfg.crcOffset] := 0;
    ghost var q := buf[start..];
    ghost var p := old(buf[start..]);
    assert q == p[cfg.counterOffset := SetLowNibble(p[cfg.counterOffset], counter)][cfg.crcOffset := 0];
    var crc := ComputeSeal8(BeU16(cfg.dataId), buf[start..], cfg.crcOffset, 0);
    buf[start + cfg.crcOffset] := FromBits(crc);
    assert buf[start..] == q[cfg.crcOffset := FromBits(crc)];
  }

  method Check01(p: seq<byte>, cfg: Config01, lastCounter: byte) returns (result: Result, last: byte)
    requires Fits01(p, cfg)
    ensures (result, last) == Checked01(p, cfg, lastCounter)
  {
    last := lastCounter;
    if |p| < 2 { return Error, last; }
    var counter := LowNibble(p[cfg.counterOffset]);
    var crc := ComputeSeal8(BeU16(cfg.dataId), p, cfg.crcOffset, 0);
    if FromBits(crc) != p[cfg.crcOffset] { return WrongCrc, last; }
    var delta := (counter - last) % 16;
    if delta == 0 {
      result := Repeated;
    } else if delta <= cfg.maxDelta {
      result := Ok;
    } else {
      result := WrongSequence;
    }
    last := counter;
  }

  // -- Profile 02

  function Id02(cfg: Config02, counter: byte): seq<byte>
    requires cfg.Valid()
  {
    [cfg.dataIds[LowNibble(counter)]]
  }

  function Protected02(p: seq<byte>, cfg: Config02, counter: byte): (r: seq<byte>)
    requires cfg.Valid()
    ensures |r| == |p|
  {
    if |p| < 2 then p
    else
      var q := p[1 := SetLowNibble(p[1], counter)][0 := 0];
      q[0 := Seal8(Id02(cfg, counter), q, 0)]
  }

  predicate Authentic02(p: seq<byte>, cfg: Config02)
    requires cfg.Valid()
  {
    |p| >= 2 && p[0] == Seal8(Id02(cfg, p[1]), p, 0)
  }

  function Checked02(p: seq<byte>, cfg: Config02, last: byte): (Result, byte)
    requires cfg.Valid()
  {
    if |p| < 2 then (Error, last)
    else if !Authentic02(p, cfg) then (WrongCrc, last)
    else
      var counter := LowNibble(p[1]);
      (Sequence((counter - last) % 16, cfg.maxDelta), counter)
  }

  method Protect02(buf: array<byte>, start: nat, cfg: Config02, counter: byte)
    requires start <= buf.Length && cfg.Valid()
    modifies buf
    ensures buf[..start] == old(buf[..start])
    ensures buf[start..] == Protected02(old(buf[start..]), cfg, counter)
  {
    if buf.Length - start < 2 { return; }
    buf[start + 1] := SetLowNibble(buf[start + 1], counter);
    buf[start] := 0;
    ghost var q := buf[start..];
    assert q == old(buf[start..])[1 := SetLowNibble(old(buf[start..])[1], counter)][0 := 0];
    var dataId := cfg.dataIds[LowNibble(counter)];
    var crc := ComputeSeal8([dataId], buf[start..], 0, 1);
    buf[start] := FromBits(crc);
    assert buf[start..] == q[0 := FromBits(crc)];
  }

  method Check02(p: seq<byte>, cfg: Config02, lastCounter: byte) returns (result: Result, last: byte)
    requires cfg.Valid()
    ensures (result, last) == Checked02(p, cfg, lastCounter)
  {
    last := lastCounter;
    if |p| < 2 { return Error, last; }
    var counter := LowNibble(p[1]);
    var dataId := cfg.dataIds[counter];
    var crc := ComputeSeal8([dataId], p, 0, 1);
    if FromBits(crc) != p[0] { return WrongCrc, last; }
    var delta := (counter - last) % 16;
    if delta == 0 {
      result := Repeated;
    } else if delta <= cfg.maxDelta {
      result := Ok;
    } else {
      result := WrongSequence;
    }
    last := counter;
  }

  // ---- Profiles 04 and 07: a length, counter, ID and CRC header -----------------------------

  /** Everything before the CRC field in profile 04. */
  function Header04(size: nat, counter: u16, dataId: u32): (r: seq<byte>)
    ensures |r| == 8
  {
    BeU16(size % TWO16) + BeU16(counter) + BeU32(dataId)
  }

  function Seal04(p: seq<byte>): seq<byte>
    requires |p| >= 12
  {
    Crc32.WriteBe(Crc32.Crc(Splice(p, 8, [0, 0, 0, 0]), 0xFFFF_FFFF))
  }

  function Protected04(p: seq<byte>, cfg: Config04, counter: u16): (r: seq<byte>)
    ensures |r| == |p|
  {
    if |p| < 12 then p
    else
      var q := Splice(p, 0, Header04(|p|, counter, cfg.dataId));
      Splice(q, 8, Seal04(q))
  }

  predicate Authentic04(p: seq<byte>, cfg: Config04) {
    && |p| >= 12
    && ReadU16(p, 0) == |p|
    && ReadU32(p, 4) == cfg.dataId
    && p[8..12] == Seal04(p)
  }

  function Checked04(p: seq<byte>, cfg: Config04, last: u16): (Result, u16) {
    if |p| < 12 || ReadU16(p, 0) != |p| then (Error, last)
    else if !Authentic04(p, cfg) then (WrongCrc, last)
    else (Sequence((ReadU16(p, 2) - last) % TWO16, cfg.maxDelta), ReadU16(p, 2))
  }

  lemma Header04Splices(p: seq<byte>, counter: u16, dataId: u32)
    requires |p| >= 12
    ensures Splice(Splice(Splice(p, 0, BeU16(|p| % TWO16)), 2, BeU16(counter)), 4, BeU32(dataId))
         == Splice(p, 0, Header04(|p|, counter, dataId))
  {
    var a, b, c := BeU16(|p| % TWO16), BeU16(counter), BeU32(dataId);
    SpliceTwice(p, 0, a, b);
    SpliceTwice(p, 0, a + b, c);
  }

  method Protect04(buf: array<byte>, start: nat, cfg: Config04, counter: u16)
    requires start <= buf.Length
    modifies buf
    ensures buf[..start] == old(buf[..start])
    ensures buf[start..] == Protected04(old(buf[start..]), cfg, counter)
  {
    hide Crc32.Crc, Crc32.WriteBe;
    var size := buf.Length - start;
    if size < 12 { return; }
    ghost var p := buf[start..];
    SpliceTail(buf[..], start, 0, BeU16(size % TWO16));
    WriteU16(buf, start, size % TWO16);
    SpliceTail(buf[..], start, 2, BeU16(counter));
    WriteU16(buf, start + 2, counter);
    SpliceTail(buf[..], start, 4, BeU32(cfg.dataId));
    WriteU32(buf, start + 4, cfg.dataId);
    Header04Splices(p, counter, cfg.dataId);
    ghost var q := buf[start..];
    SpliceTail(buf[..], start, 8, BeU32(0));
    assert BeU32(0) == [0, 0, 0, 0];
    WriteU32(buf, start + 8, 0);
    var crc := Crc32.Ethernet(buf[start..], 0xFFFF_FFFF);
    SpliceTail(buf[..], start, 8, Crc32.WriteBe(crc));
    WriteBytes(buf, start + 8, Crc32.WriteBe(crc));
    SpliceOver(q, 8, [0, 0, 0, 0], Crc32.WriteBe(crc));
  }

  method Check04(p: seq<byte>, cfg: Config04, lastCounter: u16) returns (result: Result, last: u16)
    ensures (result, last) == Checked04(p, cfg, lastCounter)
  {
    hide Crc32.Crc, Crc32.WriteBe, Crc32.ReadBe;
    last := lastCounter;
    if |p| < 12 { return Error, last; }
    if ReadU16(p, 0) != |p| { return Error, last; }
    var counter := ReadU16(p, 2);
    if ReadU32(p, 4) != cfg.dataId { return WrongCrc, last; }
    var received := Crc32.ReadBe(p[8..12]);
    var crc := Crc32.Ethernet(Splice(p, 8, [0, 0, 0, 0]), 0xFFFF_FFFF);
    Crc32.WriteRead(p[8..12]);
    Crc32.ReadWritten(crc);
    if crc != received { return WrongCrc, last; }
    var delta := (counter - last) % TWO16;
    if delta == 0 {
      result := Repeated;
    } else if delta <= cfg.maxDelta {
      result := Ok;
    } else {
      result := WrongSequence;
    }
    last := counter;
  }

  // -- Profile 07

  const ZEROS8: seq<byte> := [0, 0, 0, 0, 0, 0, 0, 0]

  /** Everything before the CRC field in profile 07. */
  function Header07(size: nat, counter: u32, dataId: u32): (r: seq<byte>)
    ensures |r| == 12
  {
    BeU32(size % TWO32) + BeU32(counter) + BeU32(dataId)
  }

  function Seal07(p: seq<byte>): (r: seq<byte>)
    requires |p| >= 20
    ensures |r| == 8
  {
    Crc64.WriteBe(Crc64.Crc(Splice(p, 12, ZEROS8), 0xFFFF_FFFF_FFFF_FFFF))
  }

  function Protected07(p: seq<byte>, cfg: Config07, counter: u32): (r: seq<byte>)
    ensures |r| == |p|
  {
    if |p| < 20 then p
    else
      var q := Splice(p, 0, Header07(|p|, counter, cfg.dataId));
      Splice(q, 12, Seal07(q))
  }

  predicate Authentic07(p: seq<byte>, cfg: Config07) {
    && |p| >= 20
    && ReadU32(p, 0) == |p|
    && ReadU32(p, 8) == cfg.dataId
    && p[12..20] == Seal07(p)
  }

  function Checked07(p: seq<byte>, cfg: Config07, last: u32): (Result, u32) {
    if |p| < 20 || ReadU32(p, 0) != |p| then (Error, last)
    else if !Authentic07(p, cfg) then (WrongCrc, last)
    else (Sequence((ReadU32(p, 4) - last) % TWO32, cfg.maxDelta), ReadU32(p, 4))
  }

  lemma Header07Splices(p: seq<byte>, counter: u32, dataId: u32)
    requires |p| >= 20
    ensures Splice(Splice(Splice(p, 0, BeU32(|p| % TWO32)), 4, BeU32(counter)), 8, BeU32(dataId))
         == Splice(p, 0, Header07(|p|, counter, dataId))
  {
    var a, b, c := BeU32(|p| % TWO32), BeU32(counter), BeU32(dataId);
    SpliceTwice(p, 0, a, b);
    SpliceTwice(p, 0, a + b, c);
  }

  method Protect07(buf: array<byte>, start: nat, cfg: Config07, counter: u32)
    requires start <= buf.Length
    modifies buf
    ensures buf[..start] == old(buf[..start])
    ensures buf[start..] == Protected07(old(buf[start..]), cfg, counter)
  {
    hide Crc64.Crc, Crc64.WriteBe;
    var size := buf.Length - start;
    if size < 20 { return; }
    ghost var p := buf[start..];
    SpliceTail(buf[..], start, 0, BeU32(size % TWO32));
    WriteU32(buf, start, size % TWO32);
    SpliceTail(buf[..], start, 4, BeU32(counter));
    WriteU32(buf, start + 4, counter);
    SpliceTail(buf[..], start, 8, BeU32(cfg.dataId));
    WriteU32(buf, start + 8, cfg.dataId);
    Header07Splices(p, counter, cfg.dataId);
    ghost var q := buf[start..];
    SpliceTail(buf[..], start, 12, ZEROS8);
    WriteBytes(buf, start + 12, ZEROS8);
    var crc := Crc64.Checksum(buf[start..], 0xFFFF_FFFF_FFFF_FFFF);
    SpliceTail(buf[..], start, 12, Crc64.WriteBe(crc));
    WriteBytes(buf, start + 12, Crc64.WriteBe(crc));
    SpliceOver(q, 12, ZEROS8, Crc64.WriteBe(crc));
  }

  method Check07(p: seq<byte>, cfg: Config07, lastCounter: u32) returns (result: Result, last: u32)
    ensures (result, last) == Checked07(p, cfg, lastCounter)
  {
    hide Crc64.Crc, Crc64.WriteBe, Crc64.ReadBe;
    last := lastCounter;
    if |p| < 20 { return Error, last; }
    if ReadU32(p, 0) != |p| { return Error, last; }
    var counter := ReadU32(p, 4);
    if ReadU32(p, 8) != cfg.dataId { return WrongCrc, last; }
    var received := Crc64.ReadBe(p[12..20]);
    var crc := Crc64.Checksum(Splice(p, 12, ZEROS8), 0xFFFF_FFFF_FFFF_FFFF);
    Crc64.WriteRead(p[12..20]);
    Crc64.ReadWritten(crc);
    if crc != received { return WrongCrc, last; }
    var delta := (counter - last) % TWO32;
    if delta == 0 {
      result := Repeated;
    } else if delta <= cfg.maxDelta {
      result := Ok;
    } else {
      result := WrongSequence;
    }
    last := counter;
  }
}
