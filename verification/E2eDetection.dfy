/** What the profiles detect: sealed payloads pass, damaged ones do not. */
module E2eDetection {
  import opened Bytes
  import opened E2eProfile
  import Crc8
  import Crc32
  import Crc64

  // ---- Sealed payloads pass ------------------------------------------------------------------

  lemma NibbleOfSet(b: byte, n: nat)
    ensures LowNibble(SetLowNibble(b, n)) == n % 16
    ensures SetLowNibble(b, n) / 16 == b / 16
  {
    DivideNibbles(b / 16, n % 16);
  }

  lemma WithoutUpdated(p: seq<byte>, k: nat, b: byte)
    requires k < |p|
    ensures Without(p[k := b], k) == Without(p, k)
  {
  }

  lemma Protected01Passes(p: seq<byte>, cfg: Config01, counter: byte)
    requires Fits01(p, cfg) && |p| >= 2
    ensures Authentic01(Protected01(p, cfg, counter), cfg)
    ensures cfg.crcOffset != cfg.counterOffset ==>
              LowNibble(Protected01(p, cfg, counter)[cfg.counterOffset]) == counter % 16
  {
    hide Seal8, LowNibble, SetLowNibble;
    var q := p[cfg.counterOffset := SetLowNibble(p[cfg.counterOffset], counter)][cfg.crcOffset := 0];
    SealIgnoresCrc(Id01(cfg), q, cfg.crcOffset, Seal8(Id01(cfg), q, cfg.crcOffset));
    NibbleOfSet(p[cfg.counterOffset], counter);
  }

  lemma SealIgnoresCrc(id: seq<byte>, q: seq<byte>, k: nat, b: byte)
    requires k < |q|
    ensures Seal8(id, q[k := b], k) == Seal8(id, q, k)
  {
    hide Crc8.Crc, Without, FromBits;
    WithoutUpdated(q, k, b);
  }

  lemma Protected02Passes(p: seq<byte>, cfg: Config02, counter: byte)
    requires cfg.Valid() && |p| >= 2
    ensures Authentic02(Protected02(p, cfg, counter), cfg)
    ensures LowNibble(Protected02(p, cfg, counter)[1]) == counter % 16
  {
    hide Seal8, SetLowNibble;
    var q := p[1 := SetLowNibble(p[1], counter)][0 := 0];
    NibbleOfSet(p[1], counter);
    SealIgnoresCrc(Id02(cfg, counter), q, 0, Seal8(Id02(cfg, counter), q, 0));
  }

  lemma Header04Reads(p: seq<byte>, size: nat, counter: u16, dataId: u32)
    requires |p| >= 12 && p[..8] == Header04(size, counter, dataId)
    ensures ReadU16(p, 0) == size % TWO16 && ReadU16(p, 2) == counter && ReadU32(p, 4) == dataId
  {
    hide ReadU16, ReadU32, BeU16, BeU32;
    assert p[0..2] == p[..8][0..2] && p[2..4] == p[..8][2..4] && p[4..8] == p[..8][4..8];
    ReadWrittenU16(p, 0, size % TWO16);
    ReadWrittenU16(p, 2, counter);
    ReadWrittenU32(p, 4, dataId);
  }

  /** Profile 04 seals exactly the sizes its 16-bit length field can hold. */
  lemma Protected04Passes(p: seq<byte>, cfg: Config04, counter: u16)
    requires |p| >= 12
    ensures Authentic04(Protected04(p, cfg, counter), cfg) <==> |p| < TWO16
    ensures ReadU16(Protected04(p, cfg, counter), 2) == counter
  {
    hide Crc32.Crc, Crc32.WriteBe, Header04, ReadU16, ReadU32;
    var q := Splice(p, 0, Header04(|p|, counter, cfg.dataId));
    var r := Protected04(p, cfg, counter);
    assert q[..8] == Header04(|p|, counter, cfg.dataId);
    assert r[..8] == q[..8];
    Header04Reads(r, |p|, counter, cfg.dataId);
    SpliceOver(q, 8, Seal04(q), [0, 0, 0, 0]);
    assert r[8..12] == Seal04(q);
  }

  lemma Header07Reads(p: seq<byte>, size: nat, counter: u32, dataId: u32)
    requires |p| >= 20 && p[..12] == Header07(size, counter, dataId)
    ensures ReadU32(p, 0) == size % TWO32 && ReadU32(p, 4) == counter && ReadU32(p, 8) == dataId
  {
    hide ReadU32, BeU32;
    assert p[0..4] == p[..12][0..4] && p[4..8] == p[..12][4..8] && p[8..12] == p[..12][8..12];
    ReadWrittenU32(p, 0, size % TWO32);
    ReadWrittenU32(p, 4, counter);
    ReadWrittenU32(p, 8, dataId);
  }

  /** Profile 07 seals exactly the sizes its 32-bit length field can hold. */
  lemma Protected07Passes(p: seq<byte>, cfg: Config07, counter: u32)
    requires |p| >= 20
    ensures Authentic07(Protected07(p, cfg, counter), cfg) <==> |p| < TWO32
    ensures ReadU32(Protected07(p, cfg, counter), 4) == counter
  {
    hide Crc64.Crc, Crc64.WriteBe, Header07, ReadU32;
    var q := Splice(p, 0, Header07(|p|, counter, cfg.dataId));
    var r := Protected07(p, cfg, counter);
    assert q[..12] == Header07(|p|, counter, cfg.dataId);
    assert r[..12] == q[..12];
    Header07Reads(r, |p|, counter, cfg.dataId);
    SpliceOver(q, 12, Seal07(q), ZEROS8);
    assert r[12..20] == Seal07(q);
  }

  // ---- What is on the wire ----------------------------------------------------------------------------

  /** What a payload that passes its CRC means, by the distance of its counter from the last one. */
  predicate Judged(distance: nat, maxDelta: nat, verdict: Result) {
    && (verdict == Repeated <==> distance == 0)
    && (verdict == Ok <==> 1 <= distance <= maxDelta)
    && (verdict == WrongSequence <==> distance > maxDelta)
  }

  lemma SequenceJudges(distance: nat, maxDelta: nat)
    ensures Judged(distance, maxDelta, Sequence(distance, maxDelta))
  {
  }

  /** Profile 01: four bits of one byte and the CRC byte are set, every other byte stays. */
  lemma Sealed01(p: seq<byte>, cfg: Config01, counter: byte)
    requires Fits01(p, cfg) && |p| >= 2 && cfg.crcOffset != cfg.counterOffset
    ensures
      var r, k, c := Protected01(p, cfg, counter), cfg.counterOffset, cfg.crcOffset;
      && r[k] == p[k] / 16 * 16 + counter % 16
      && Bits(r[c]) == Crc8.Crc([cfg.dataId / 0x100, cfg.dataId % 0x100] + r[..c] + r[c + 1..], 0xFF)
      && forall i :: 0 <= i < |p| && i != k && i != c ==> r[i] == p[i]
  {
    hide Crc8.Crc, Bits, FromBits;
    var r, c := Protected01(p, cfg, counter), cfg.crcOffset;
    var q := p[cfg.counterOffset := SetLowNibble(p[cfg.counterOffset], counter)][c := 0];
    var body := [cfg.dataId / 0x100, cfg.dataId % 0x100] + r[..c] + r[c + 1..];
    assert body == Id01(cfg) + Without(q, c);
    BitsOfFromBits(Crc8.Crc(body, 0xFF));
  }

  lemma Seals02(p: seq<byte>, cfg: Config02, counter: byte)
    requires cfg.Valid() && |p| >= 2
    ensures
      var b := SetLowNibble(p[1], counter);
      Protected02(p, cfg, counter)
      == [FromBits(Crc8.Crc([cfg.dataIds[counter % 16]] + ([b] + p[2..]), 0xFF)), b] + p[2..]
  {
    hide Crc8.Crc, FromBits, SetLowNibble;
    var b := SetLowNibble(p[1], counter);
    var q := p[1 := b][0 := 0];
    assert Without(q, 0) == [b] + p[2..];
  }

  /** Profile 02: the CRC comes first, the counter second; the counter picks the data ID. */
  lemma Sealed02(p: seq<byte>, cfg: Config02, counter: byte)
    requires cfg.Valid() && |p| >= 2
    ensures
      var r := Protected02(p, cfg, counter);
      && r[1] == p[1] / 16 * 16 + counter % 16 && r[2..] == p[2..]
      && Bits(r[0]) == Crc8.Crc([cfg.dataIds[counter % 16]] + r[1..], 0xFF)
  {
    hide Crc8.Crc, Bits, FromBits, Protected02;
    var r, b := Protected02(p, cfg, counter), SetLowNibble(p[1], counter);
    var body := [cfg.dataIds[counter % 16]] + ([b] + p[2..]);
    Seals02(p, cfg, counter);
    assert r[1..] == [b] + p[2..] && r[2..] == p[2..] && r[1] == b;
    BitsOfFromBits(Crc8.Crc(body, 0xFF));
  }

  /** Profile 04: size, counter and data ID, then the CRC over the payload with four zeros in its place. */
  lemma Sealed04(p: seq<byte>, cfg: Config04, counter: u16)
    requires |p| >= 12
    ensures
      var r := Protected04(p, cfg, counter);
      && r[..8] == BeU16(|p| % 0x1_0000) + BeU16(counter) + BeU32(cfg.dataId) && r[12..] == p[12..]
      && r[8..12] == Crc32.WriteBe(Crc32.Crc(r[..8] + [0, 0, 0, 0] + r[12..], 0xFFFF_FFFF))
  {
    hide Crc32.Crc, Crc32.WriteBe, BeU16, BeU32;
    var q, r := Splice(p, 0, Header04(|p|, counter, cfg.dataId)), Protected04(p, cfg, counter);
    assert r[8..12] == Seal04(q);
    assert Splice(q, 8, [0, 0, 0, 0]) == r[..8] + [0, 0, 0, 0] + r[12..];
  }

  /** Profile 07: the same with 32 bits for size and counter and a CRC of eight bytes. */
  lemma Sealed07(p: seq<byte>, cfg: Config07, counter: u32)
    requires |p| >= 20
    ensures
      var r := Protected07(p, cfg, counter);
      && r[..12] == BeU32(|p| % 0x1_0000_0000) + BeU32(counter) + BeU32(cfg.dataId) && r[20..] == p[20..]
      && r[12..20] == Crc64.WriteBe(Crc64.Crc(r[..12] + [0, 0, 0, 0, 0, 0, 0, 0] + r[20..], 0xFFFF_FFFF_FFFF_FFFF))
  {
    hide Crc64.Crc, Crc64.WriteBe, BeU32;
    var q, r := Splice(p, 0, Header07(|p|, counter, cfg.dataId)), Protected07(p, cfg, counter);
    assert r[12..20] == Seal07(q);
    assert Splice(q, 12, ZEROS8) == r[..12] + [0, 0, 0, 0, 0, 0, 0, 0] + r[20..];
  }

  // -- What the receiver says to any payload

  lemma Verdict01(p: seq<byte>, cfg: Config01, last: byte)
    requires Fits01(p, cfg)
    ensures
      var (verdict, counter) := Checked01(p, cfg, last);
      && (verdict == Error <==> |p| < 2)
      && (|p| >= 2 ==>
        var c, id := cfg.crcOffset, [cfg.dataId / 0x100, cfg.dataId % 0x100];
        verdict == WrongCrc <==> Bits(p[c]) != Crc8.Crc(id + p[..c] + p[c + 1..], 0xFF))
      && (verdict in {Error, WrongCrc} ==> counter == last)
      && (verdict !in {Error, WrongCrc} ==>
        counter == p[cfg.counterOffset] % 16 && Judged((counter - last) % 16, cfg.maxDelta, verdict))
  {
    hide Crc8.Crc, Bits, FromBits, Sequence;
    if |p| >= 2 {
      var c := cfg.crcOffset;
      var body := [cfg.dataId / 0x100, cfg.dataId % 0x100] + p[..c] + p[c + 1..];
      assert body == Id01(cfg) + Without(p, c);
      BitsOfFromBits(Crc8.Crc(body, 0xFF));
      FromBitsOfBits(p[c]);
      SequenceJudges((p[cfg.counterOffset] % 16 - last) % 16, cfg.maxDelta);
    }
  }

  lemma Verdict02(p: seq<byte>, cfg: Config02, last: byte)
    requires cfg.Valid()
    ensures
      var (verdict, counter) := Checked02(p, cfg, last);
      && (verdict == Error <==> |p| < 2)
      && (|p| >= 2 ==>
        (verdict == WrongCrc <==> Bits(p[0]) != Crc8.Crc([cfg.dataIds[p[1] % 16]] + p[1..], 0xFF)))
      && (verdict in {Error, WrongCrc} ==> counter == last)
      && (verdict !in {Error, WrongCrc} ==>
        counter == p[1] % 16 && Judged((counter - last) % 16, cfg.maxDelta, verdict))
  {
    hide Crc8.Crc, Bits, FromBits, Sequence;
    if |p| >= 2 {
      var body := [cfg.dataIds[p[1] % 16]] + p[1..];
      assert body == Id02(cfg, p[1]) + Without(p, 0);
      BitsOfFromBits(Crc8.Crc(body, 0xFF));
      FromBitsOfBits(p[0]);
      SequenceJudges((p[1] % 16 - last) % 16, cfg.maxDelta);
    }
  }

  lemma Verdict04(p: seq<byte>, cfg: Config04, last: u16)
    ensures
      var (verdict, counter) := Checked04(p, cfg, last);
      && (verdict == Error <==> |p| < 12 || ReadU16(p, 0) != |p|)
      && (verdict != Error ==>
        var crc := Crc32.WriteBe(Crc32.Crc(p[..8] + [0, 0, 0, 0] + p[12..], 0xFFFF_FFFF));
        verdict == WrongCrc <==> ReadU32(p, 4) != cfg.dataId || p[8..12] != crc)
      && (verdict in {Error, WrongCrc} ==> counter == last)
      && (verdict !in {Error, WrongCrc} ==>
        counter == ReadU16(p, 2) && Judged((counter - last) % 0x1_0000, cfg.maxDelta, verdict))
  {
    hide Crc32.Crc, Crc32.WriteBe, ReadU16, ReadU32, Sequence;
    if |p| >= 12 {
      assert Splice(p, 8, [0, 0, 0, 0]) == p[..8] + [0, 0, 0, 0] + p[12..];
      SequenceJudges((ReadU16(p, 2) - last) % 0x1_0000, cfg.maxDelta);
    }
  }

  lemma Verdict07(p: seq<byte>, cfg: Config07, last: u32)
    ensures
      var (verdict, counter) := Checked07(p, cfg, last);
      && (verdict == Error <==> |p| < 20 || ReadU32(p, 0) != |p|)
      && (verdict != Error ==>
        var crc := Crc64.WriteBe(Crc64.Crc(p[..12] + [0, 0, 0, 0, 0, 0, 0, 0] + p[20..], 0xFFFF_FFFF_FFFF_FFFF));
        verdict == WrongCrc <==> ReadU32(p, 8) != cfg.dataId || p[12..20] != crc)
      && (verdict in {Error, WrongCrc} ==> counter == last)
      && (verdict !in {Error, WrongCrc} ==>
        counter == ReadU32(p, 4) && Judged((counter - last) % 0x1_0000_0000, cfg.maxDelta, verdict))
  {
    hide Crc64.Crc, Crc64.WriteBe, ReadU32, Sequence;
    if |p| >= 20 {
      assert Splice(p, 12, ZEROS8) == p[..12] + [0, 0, 0, 0, 0, 0, 0, 0] + p[20..];
      SequenceJudges((ReadU32(p, 4) - last) % 0x1_0000_0000, cfg.maxDelta);
    }
  }

  // ---- Damaged payloads do not -------------------------------------------------------------------

  lemma WithoutShifted(p: seq<byte>, crcOffset: nat, k: nat, b: byte)
    requires k < |p| && crcOffset < |p| && k != crcOffset
    ensures
      var i := if k < crcOffset then k else k - 1;
      && i < |Without(p, crcOffset)| && Without(p, crcOffset)[i] == p[k]
      && Without(p[k := b], crcOffset) == Without(p, crcOffset)[i := b]
  {
    if k < crcOffset {
      assert p[k := b][..crcOffset] == p[..crcOffset][k := b] && p[k := b][crcOffset + 1..] == p[crcOffset + 1..];
    } else {
      var i := k - crcOffset - 1;
      assert p[k := b][..crcOffset] == p[..crcOffset];
      assert p[k := b][crcOffset + 1..] == p[crcOffset + 1..][i := b];
    }
  }

  lemma UpdateBehind(id: seq<byte>, w: seq<byte>, i: nat, b: byte)
    requires i < |w|
    ensures (id + w)[|id| + i] == w[i] && id + w[i := b] == (id + w)[|id| + i := b]
  {
  }

  lemma WithoutElsewhere(id: seq<byte>, p: seq<byte>, crcOffset: nat, k: nat, b: byte)
    requires k < |p| && crcOffset < |p| && k != crcOffset
    ensures var j := |id| + (if k < crcOffset then k else k - 1);
            var w := id + Without(p, crcOffset);
            j < |w| && w[j] == p[k] && id + Without(p[k := b], crcOffset) == w[j := b]
  {
    hide Without;
    WithoutShifted(p, crcOffset, k, b);
    UpdateBehind(id, Without(p, crcOffset), if k < crcOffset then k else k - 1, b);
  }

  lemma UpdateIsWindow(w: seq<byte>, j: nat, b: byte)
    requires j < |w|
    ensures w == w[..j] + [w[j]] + w[j + 1..] && w[j := b] == w[..j] + [b] + w[j + 1..]
  {
  }

  lemma Seal8Differs(id: seq<byte>, p: seq<byte>, crcOffset: nat, k: nat, b: byte)
    requires k < |p| && crcOffset < |p| && k != crcOffset && b != p[k]
    ensures Seal8(id, p, crcOffset) != Seal8(id, p[k := b], crcOffset)
  {
    hide Crc8.Crc, Bits, FromBits, Without;
    WithoutElsewhere(id, p, crcOffset, k, b);
    var w := id + Without(p, crcOffset);
    var j := |id| + if k < crcOffset then k else k - 1;
    UpdateIsWindow(w, j, b);
    Crc8.ByteErrorDetected(w[..j], w[j], b, w[j + 1..], 0xFF);
    BitsOfFromBits(Crc8.Crc(w, 0xFF));
    BitsOfFromBits(Crc8.Crc(w[j := b], 0xFF));
  }

  /** Profile 01 detects any single damaged byte, the CRC byte included. */
  lemma Damaged01(p: seq<byte>, cfg: Config01, k: nat, b: byte, last: byte)
    requires Fits01(p, cfg) && Authentic01(p, cfg)
    requires k < |p| && b != p[k]
    ensures Checked01(p[k := b], cfg, last) == (WrongCrc, last)
  {
    hide Seal8;
    if k == cfg.crcOffset {
      SealIgnoresCrc(Id01(cfg), p, k, b);
    } else {
      Seal8Differs(Id01(cfg), p, cfg.crcOffset, k, b);
    }
  }

  /** Profile 02 detects any single damaged byte that leaves the counter nibble alone. */
  lemma Damaged02(p: seq<byte>, cfg: Config02, k: nat, b: byte, last: byte)
    requires cfg.Valid() && Authentic02(p, cfg)
    requires k < |p| && b != p[k] && (k == 1 ==> LowNibble(b) == LowNibble(p[1]))
    ensures Checked02(p[k := b], cfg, last) == (WrongCrc, last)
  {
    hide Seal8;
    if k == 0 {
      SealIgnoresCrc(Id02(cfg, p[1]), p, k, b);
    } else {
      Seal8Differs(Id02(cfg, p[1]), p, 0, k, b);
    }
  }

  lemma Seal02Splits(p: seq<byte>, id: byte, b: byte)
    requires |p| >= 2
    ensures Seal8([id], p[1 := b], 0) == FromBits(Crc8.Crc([id, b] + p[2..], 0xFF))
  {
    hide Crc8.Crc, FromBits;
    assert [id] + Without(p[1 := b], 0) == [id, b] + p[2..];
  }

  /**
   A damaged counter byte also changes the data ID.  Profile 02 then accepts the payload exactly
   when the two (data ID, counter byte) pairs happen to have the same checksum.
   */
  lemma DamagedCounter02(p: seq<byte>, cfg: Config02, b: byte)
    requires cfg.Valid() && Authentic02(p, cfg)
    ensures Authentic02(p[1 := b], cfg)
       <==> Crc8.Crc(Id02(cfg, p[1]) + [p[1]], 0xFF) == Crc8.Crc(Id02(cfg, b) + [b], 0xFF)
  {
    hide Crc8.Crc, Seal8, FromBits, LowNibble;
    var x, y := Id02(cfg, p[1])[0], Id02(cfg, b)[0];
    assert p == p[1 := p[1]];
    Seal02Splits(p, x, p[1]);
    Seal02Splits(p, y, b);
    Crc8.SameEnding([x, p[1]], [y, b], p[2..], 0xFF);
    assert [x] + [p[1]] == [x, p[1]] && [y] + [b] == [y, b];
    BitsOfFromBits(Crc8.Crc([x, p[1]] + p[2..], 0xFF));
    BitsOfFromBits(Crc8.Crc([y, b] + p[2..], 0xFF));
  }

  const COLLIDING_IDS: Config02 := Config02([0x00, 0x83, 0, 0, 0, 0, 0, 0, 0, 0, 0, 0, 0, 0, 0, 0], 1)

  /**
  Such a pair exists: with data IDs 0x00 and 0x83 for the counters 0 and 1, an authentic payload whose
  byte 1 is changed from 0 to 1 is accepted, and as the next message at that.
  */
  lemma DamagedCounterUnnoticed02()
    ensures
      var p, cfg := [0xBE, 0x00], COLLIDING_IDS;
      && cfg.Valid() && Authentic02(p, cfg) && p[1 := 0x01] != p
      && Authentic02(p[1 := 0x01], cfg) && Checked02(p[1 := 0x01], cfg, 0) == (Ok, 1)
  {
    hide Crc8.Crc, FromBits, Seal8;
    var p: seq<byte>, cfg := [0xBE, 0x00], COLLIDING_IDS;
    Crc8.CollidingPairs();
    Bits0xBE();
    Seal02Splits(p, 0x00, 0x00);
    assert p[1 := 0x00] == p && [0x00, 0x00] + p[2..] == [0x00, 0x00];
    DamagedCounter02(p, cfg, 0x01);
    assert Id02(cfg, 0x00) + [0x00] == [0x00, 0x00] && Id02(cfg, 0x01) + [0x01] == [0x83, 0x01];
    assert p[1 := 0x01][1] == 0x01;
  }

  lemma Bits0xBE()
    ensures FromBits(0xBE) == 0xBE
  {
  }

  /** Damage inside or outside a field: outside it the field is the same, inside it the field differs. */
  lemma FieldDiffers(p: seq<byte>, q: seq<byte>, lo: nat, n: nat, i: nat, j: nat)
    requires DifferInside(p, q, lo, n) && p != q && i <= j <= |p|
    ensures lo + n <= i || lo >= j ==> p[i..j] == q[i..j]
    ensures i <= lo && lo + n <= j ==> p[i..j] != q[i..j]
  {
    if i <= lo && lo + n <= j {
      hide DifferInside;
      SplitWindow(p, q, lo, n);
      SliceOfSlice(p, i, j - i, lo - i, lo + n - i);
      SliceOfSlice(q, i, j - i, lo - i, lo + n - i);
    }
  }

  lemma CrcField04Differs(p: seq<byte>, q: seq<byte>, lo: nat, n: nat)
    requires DifferInside(p, q, lo, n) && |p| >= 12 && 8 <= lo && lo + n <= 12
    ensures Seal04(p) == Seal04(q)
  {
    hide Crc32.Crc, Crc32.WriteBe;
    assert Splice(p, 8, [0, 0, 0, 0]) == Splice(q, 8, [0, 0, 0, 0]);
  }

  lemma Body04Differs(p: seq<byte>, q: seq<byte>, lo: nat, n: nat)
    requires DifferInside(p, q, lo, n) && n <= 4 && |p| >= 12 && (lo + n <= 8 || lo >= 12)
    requires p != q
    ensures Seal04(p) != Seal04(q)
  {
    hide Crc32.Crc, Crc32.WriteBe, Crc32.ReadBe;
    var z, z' := Splice(p, 8, [0, 0, 0, 0]), Splice(q, 8, [0, 0, 0, 0]);
    assert exists k :: 0 <= k < |p| && p[k] != q[k];
    Crc32.DamageDetected(z, z', lo, n, 0xFFFF_FFFF);
    if Seal04(p) == Seal04(q) {
      Crc32.WriteBeInjective(Crc32.Crc(z, 0xFFFF_FFFF), Crc32.Crc(z', 0xFFFF_FFFF));
    }
  }

  lemma SameLength(p: seq<byte>, q: seq<byte>, lo: nat, n: nat)
    requires DifferInside(p, q, lo, n)
    ensures |p| == |q|
  {
  }

  lemma OtherWord(p: seq<byte>, q: seq<byte>, at: nat)
    requires |p| == |q| && at + 4 <= |p| && p[at..at + 4] != q[at..at + 4]
    ensures ReadU32(p, at) != ReadU32(q, at)
  {
    WriteReadU32(p, at);
    WriteReadU32(q, at);
  }

  /** Damage over the left border of the CRC field that reaches no further left than the data ID. */
  lemma Border04(p: seq<byte>, q: seq<byte>, cfg: Config04, lo: nat, n: nat, last: u16)
    requires Authentic04(p, cfg) && DifferInside(p, q, lo, n) && p != q
    requires 4 <= lo && lo + n <= 12
    ensures Checked04(q, cfg, last).0 in {WrongCrc, Error} && Checked04(q, cfg, last).1 == last
  {
    SameLength(p, q, lo, n);
    if p[4..8] == q[4..8] {
      hide Seal04, ReadU16, ReadU32, DifferInside, Sequence;
      InsideRight(p, q, lo, n, 4, 8, 4);
      CrcField04Differs(p, q, 8, 4);
      FieldDiffers(p, q, 8, 4, 8, 12);
    } else {
      hide Seal04, ReadU16, ReadU32, DifferInside;
      OtherWord(p, q, 4);
    }
  }

  /** Damage that leaves a field alone lies behind it. */
  lemma InsideRight(p: seq<byte>, q: seq<byte>, lo: nat, n: nat, i: nat, j: nat, m: nat)
    requires DifferInside(p, q, lo, n) && i <= lo && i <= j <= |p| && lo + n <= j + m <= |p| && p[i..j] == q[i..j]
    ensures DifferInside(p, q, j, m)
  {
    forall k | 0 <= k < |p| && !(j <= k < j + m)
      ensures p[k] == q[k]
    {
      if i <= k < j {
        assert p[k] == p[i..j][k - i] && q[k] == q[i..j][k - i];
      }
    }
  }

  /**
   Profile 04 detects damage confined to four consecutive bytes, unless it reaches over the right border of
   the CRC field, and the receiver's counter stays.
   */
  lemma Damaged04(p: seq<byte>, q: seq<byte>, cfg: Config04, lo: nat, n: nat, last: u16)
    requires Authentic04(p, cfg) && DifferInside(p, q, lo, n) && p != q
    requires n <= 4 && (lo + n <= 12 || lo >= 12)
    ensures Checked04(q, cfg, last).0 in {WrongCrc, Error} && Checked04(q, cfg, last).1 == last
  {
    hide Seal04, ReadU16, ReadU32;
    if lo + n <= 8 || lo >= 12 {
      FieldDiffers(p, q, lo, n, 8, 12);
      Body04Differs(p, q, lo, n);
    } else {
      Border04(p, q, cfg, lo, n, last);
    }
  }

  lemma CrcField07Differs(p: seq<byte>, q: seq<byte>, lo: nat, n: nat)
    requires DifferInside(p, q, lo, n) && |p| >= 20 && 12 <= lo && lo + n <= 20
    ensures Seal07(p) == Seal07(q)
  {
    hide Crc64.Crc, Crc64.WriteBe;
    assert Splice(p, 12, ZEROS8) == Splice(q, 12, ZEROS8);
  }

  lemma Body07Differs(p: seq<byte>, q: seq<byte>, lo: nat, n: nat)
    requires DifferInside(p, q, lo, n) && n <= 8 && |p| >= 20 && (lo + n <= 12 || lo >= 20)
    requires p != q
    ensures Seal07(p) != Seal07(q)
  {
    hide Crc64.Crc, Crc64.WriteBe, Crc64.ReadBe;
    var z, z' := Splice(p, 12, ZEROS8), Splice(q, 12, ZEROS8);
    assert exists k :: 0 <= k < |p| && p[k] != q[k];
    Crc64.DamageDetected(z, z', lo, n, 0xFFFF_FFFF_FFFF_FFFF);
    if Seal07(p) == Seal07(q) {
      Crc64.WriteBeInjective(Crc64.Crc(z, 0xFFFF_FFFF_FFFF_FFFF), Crc64.Crc(z', 0xFFFF_FFFF_FFFF_FFFF));
    }
  }

  /** Damage in the data ID and the CRC field together. */
  lemma Border07(p: seq<byte>, q: seq<byte>, cfg: Config07, lo: nat, n: nat, last: u32)
    requires Authentic07(p, cfg) && DifferInside(p, q, lo, n) && p != q
    requires 8 <= lo && lo + n <= 20
    ensures Checked07(q, cfg, last).0 in {WrongCrc, Error} && Checked07(q, cfg, last).1 == last
  {
    SameLength(p, q, lo, n);
    if p[8..12] == q[8..12] {
      hide Seal07, ReadU32, DifferInside, Sequence;
      InsideRight(p, q, lo, n, 8, 12, 8);
      CrcField07Differs(p, q, 12, 8);
      FieldDiffers(p, q, 12, 8, 12, 20);
    } else {
      hide Seal07, ReadU32, DifferInside;
      OtherWord(p, q, 8);
    }
  }

  /**
   Profile 07 detects damage confined to eight consecutive bytes before or behind the CRC field, or anywhere
   in the data ID and the CRC field.
   */
  lemma Damaged07(p: seq<byte>, q: seq<byte>, cfg: Config07, lo: nat, n: nat, last: u32)
    requires Authentic07(p, cfg) && DifferInside(p, q, lo, n) && p != q
    requires n <= 8 && (lo + n <= 12 || (8 <= lo && lo + n <= 20) || lo >= 20)
    ensures Checked07(q, cfg, last).0 in {WrongCrc, Error} && Checked07(q, cfg, last).1 == last
  {
    hide Seal07, ReadU32;
    if lo + n <= 12 || lo >= 20 {
      FieldDiffers(p, q, lo, n, 12, 20);
      Body07Differs(p, q, lo, n);
    } else {
      Border07(p, q, cfg, lo, n, last);
    }
  }
}
