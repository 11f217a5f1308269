/** CRC-32/Ethernet: the bitwise definition, the byte table and slicing-by-8. */
module Crc32 {
  import opened Bytes
  import opened LinearRegister

  // ---- The register -----------------------------------------------------------------

  /** Shift one bit out to the right; subtract the reflected polynomial if it was set. */
  function Step(c: bv32): bv32 {
    if c & 1 != 0 then (c >> 1) ^ 0xEDB8_8320 else c >> 1
  }

  function Xor(a: bv32, b: bv32): bv32 {
    a ^ b
  }

  function Load(b: byte): bv32 {
    Bits(b) as bv32
  }

  function Low(x: bv32): byte {
    FromBits((x & 0xFF) as bv8)
  }

  function Place(b: byte, i: nat): bv32 {
    if i == 0 then Load(b) else if i == 1 then Load(b) << 8 else if i == 2 then Load(b) << 16 else Load(b) << 24
  }

  function Shifted(x: bv32, i: nat): bv32 {
    if i == 0 then x else if i == 1 then x >> 8 else if i == 2 then x >> 16 else x >> 24
  }

  function ByteAt(x: bv32, i: nat): byte {
    Low(Shifted(x, i))
  }

  const REG: Register<bv32> := Register(0, Xor, Step, 4, Place, ByteAt)

  function Final(c: bv32): bv32 {
    c ^ 0xFFFF_FFFF
  }

  /** The checksum by its bitwise definition. */
  function Crc(data: seq<byte>, init: bv32): bv32 {
    Final(REG.Fold(init, data))
  }

  // ---- Calls through the register ---------------------------------------------------

  lemma XorIs(a: bv32, b: bv32)
    ensures REG.xor(a, b) == Xor(a, b)
  {
  }

  lemma StepIs(a: bv32)
    ensures REG.step(a) == Step(a)
  {
  }

  lemma PlaceIs(b: byte, i: nat)
    ensures REG.place(b, i) == Place(b, i)
  {
  }

  lemma ByteAtIs(x: bv32, i: nat)
    ensures REG.byteAt(x, i) == ByteAt(x, i)
  {
  }

  // ---- The step is linear and invertible ----------------------------------------------

  lemma XorShift(a: bv32, b: bv32)
    ensures (a ^ b) >> 1 == (a >> 1) ^ (b >> 1)
  {
  }

  lemma XorLowBit(a: bv32, b: bv32)
    ensures (a ^ b) & 1 == (a & 1) ^ (b & 1)
  {
  }

  lemma LowBit(a: bv32)
    ensures a & 1 == 0 || a & 1 == 1
  {
  }

  lemma StepLinear11(a: bv32, b: bv32)
    requires a & 1 == 1 && b & 1 == 1
    ensures Step(a ^ b) == Step(a) ^ Step(b)
  {
    XorShift(a, b);
    XorLowBit(a, b);
  }

  lemma StepLinear10(a: bv32, b: bv32)
    requires a & 1 == 1 && b & 1 == 0
    ensures Step(a ^ b) == Step(a) ^ Step(b)
  {
    XorShift(a, b);
    XorLowBit(a, b);
  }

  lemma StepLinear01(a: bv32, b: bv32)
    requires a & 1 == 0 && b & 1 == 1
    ensures Step(a ^ b) == Step(a) ^ Step(b)
  {
    XorShift(a, b);
    XorLowBit(a, b);
  }

  lemma StepLinear00(a: bv32, b: bv32)
    requires a & 1 == 0 && b & 1 == 0
    ensures Step(a ^ b) == Step(a) ^ Step(b)
  {
    XorShift(a, b);
    XorLowBit(a, b);
  }

  lemma StepLinear(a: bv32, b: bv32)
    ensures Step(Xor(a, b)) == Xor(Step(a), Step(b))
  {
    LowBit(a);
    LowBit(b);
    if a & 1 == 1 {
      if b & 1 == 1 { StepLinear11(a, b); } else { StepLinear10(a, b); }
    } else {
      if b & 1 == 1 { StepLinear01(a, b); } else { StepLinear00(a, b); }
    }
  }

  lemma StepInjective(a: bv32, b: bv32)
    requires Step(a) == Step(b)
    ensures a == b
  {
  }

  lemma XorPairs(a: bv32, b: bv32, c: bv32, d: bv32)
    ensures Xor(Xor(a, b), Xor(c, d)) == (a ^ b) ^ (c ^ d)
  {
  }

  lemma ExchangeBits(a: bv32, b: bv32, c: bv32, d: bv32)
    ensures (a ^ b) ^ (c ^ d) == (a ^ c) ^ (b ^ d)
  {
  }

  lemma XorExchange(a: bv32, b: bv32, c: bv32, d: bv32)
    ensures Xor(Xor(a, b), Xor(c, d)) == Xor(Xor(a, c), Xor(b, d))
  {
    hide Xor;
    XorPairs(a, b, c, d);
    XorPairs(a, c, b, d);
    ExchangeBits(a, b, c, d);
  }

  lemma XorUnit(a: bv32)
    ensures Xor(a, 0) == a && Xor(0, a) == a
  {
  }

  lemma XorCancels(a: bv32, b: bv32, c: bv32)
    requires Xor(a, c) == Xor(b, c)
    ensures a == b
  {
    assert (a ^ c) ^ c == a && (b ^ c) ^ c == b;
  }

  lemma XorCommutes(a: bv32, b: bv32)
    ensures Xor(a, b) == Xor(b, a)
  {
  }

  lemma Sum4Exchange(a: bv32, b: bv32, c: bv32, d: bv32)
    ensures REG.Sum4(a, b, c, d) == REG.Sum4(a, c, b, d)
  {
    hide Xor;
    XorIs(a, b);
    XorIs(c, d);
    XorIs(Xor(a, b), Xor(c, d));
    XorIs(a, c);
    XorIs(b, d);
    XorIs(Xor(a, c), Xor(b, d));
    XorExchange(a, b, c, d);
  }

  lemma StepDistributes(a: bv32, b: bv32)
    ensures REG.step(REG.xor(a, b)) == REG.xor(REG.step(a), REG.step(b))
  {
    hide Xor, Step;
    XorIs(a, b);
    StepIs(a);
    StepIs(b);
    StepIs(Xor(a, b));
    XorIs(Step(a), Step(b));
    StepLinear(a, b);
  }

  lemma IsLawful()
    ensures REG.Lawful()
  {
    hide Xor, Step;
    forall a, b, c, d ensures REG.Sum4(a, b, c, d) == REG.Sum4(a, c, b, d) {
      Sum4Exchange(a, b, c, d);
    }
    forall a ensures REG.xor(a, REG.zero) == a && REG.xor(REG.zero, a) == a {
      XorIs(a, 0);
      XorIs(0, a);
      XorUnit(a);
    }
    forall a, b ensures REG.step(REG.xor(a, b)) == REG.xor(REG.step(a), REG.step(b)) {
      StepDistributes(a, b);
    }
    StepZero();
    StepIs(0);
  }

  lemma StepZero()
    ensures Step(0) == 0
  {
  }

  lemma IsInjective()
    ensures REG.Injective()
  {
    hide Xor, Step;
    forall a, b | REG.step(a) == REG.step(b) ensures a == b {
      StepIs(a);
      StepIs(b);
      StepInjective(a, b);
    }
    forall a, b, c | REG.xor(a, c) == REG.xor(b, c) ensures a == b {
      XorIs(a, c);
      XorIs(b, c);
      XorCancels(a, b, c);
    }
    forall a, b, c | REG.xor(c, a) == REG.xor(c, b) ensures a == b {
      XorIs(c, a);
      XorIs(c, b);
      XorCommutes(a, c);
      XorCommutes(b, c);
      XorCancels(a, b, c);
    }
  }

  // ---- Bytes inside the register --------------------------------------------------------

  /** The low n bits of x are clear. */
  predicate Quiet(x: bv32, n: nat)
    decreases n
  {
    n == 0 || (x & 1 == 0 && Quiet(Out(x), n - 1))
  }

  /** One place towards the end of the register from which bits leave, and one place back. */
  function Out(x: bv32): bv32 {
    x >> 1
  }

  function Back(x: bv32): bv32 {
    x << 1
  }

  function ShiftRight(x: bv32, n: nat): bv32
    decreases n
  {
    if n == 0 then x else ShiftRight(Out(x), n - 1)
  }

  lemma {:induction false} QuietSteps(x: bv32, n: nat)
    requires Quiet(x, n)
    ensures REG.Steps(x, n) == ShiftRight(x, n)
  {
    if n > 0 {
      StepIs(x);
      QuietSteps(Out(x), n - 1);
    }
  }

  lemma QuietByte(x: bv32)
    requires x & 0xFF == 0
    ensures Quiet(x, 8)
  {
  }

  lemma ShiftByte(x: bv32)
    ensures ShiftRight(x, 8) == x >> 8
  {
  }

  /** Eight steps only shift while the low byte is zero. */
  lemma ShiftOut(x: bv32)
    requires x & 0xFF == 0
    ensures REG.Steps(x, 8) == x >> 8
  {
    hide Quiet, ShiftRight;
    QuietByte(x);
    QuietSteps(x, 8);
    ShiftByte(x);
  }

  lemma PlaceShifts(b: byte, i: nat)
    requires 0 < i < 4
    ensures Place(b, i) & 0xFF == 0 && Place(b, i) >> 8 == Place(b, i - 1)
  {
    hide Bits;
  }

  lemma {:induction false} Delayed(b: byte, i: nat)
    requires i < 4
    ensures REG.Steps(Place(b, i), 8 * i) == Place(b, 0)
  {
    hide Place;
    if i > 0 {
      PlaceShifts(b, i);
      ShiftOut(Place(b, i));
      REG.StepsAdd(Place(b, i), 8, 8 * (i - 1));
      Delayed(b, i - 1);
    }
  }

  lemma LoadLow(x: bv32)
    ensures Load(Low(x)) == x & 0xFF
  {
    BitsOfFromBits((x & 0xFF) as bv8);
  }

  lemma LowOf(x: bv32, b: byte)
    requires x & 0xFF == Load(b)
    ensures Low(x) == b
  {
    FromBitsOfBits(b);
  }

  function And(x: bv32, m: bv32): bv32 {
    x & m
  }

  lemma AndXorBits(x: bv32, m: bv32, n: bv32)
    ensures (x & m) ^ (x & n) == x & (m ^ n)
  {
  }

  lemma AndXorLeft(x: bv32, m: bv32, n: bv32)
    ensures Xor(And(x, m), And(x, n)) == (x & m) ^ (x & n)
  {
  }

  lemma AndXorRight(x: bv32, m: bv32, n: bv32)
    ensures And(x, Xor(m, n)) == x & (m ^ n)
  {
  }

  lemma AndXor(x: bv32, m: bv32, n: bv32)
    ensures Xor(And(x, m), And(x, n)) == And(x, Xor(m, n))
  {
    hide And, Xor;
    AndXorLeft(x, m, n);
    AndXorRight(x, m, n);
    AndXorBits(x, m, n);
  }

  lemma AndZero(x: bv32)
    ensures And(x, 0) == 0
  {
  }

  /** The bits of a word that its i-th byte occupies. */
  function Slot(i: nat): bv32 {
    match i {
      case 0 => 0xFF
      case 1 => 0xFF00
      case 2 => 0xFF_0000
      case _ => 0xFF00_0000
    }
  }

  function SlotsFrom(i: nat): bv32
    requires i <= 4
    decreases 4 - i
  {
    if i == 4 then 0 else Xor(Slot(i), SlotsFrom(i + 1))
  }

  lemma AllSlots(c: bv32)
    ensures And(c, SlotsFrom(0)) == c
  {
    assert SlotsFrom(0) == 0xFFFF_FFFF;
  }

  lemma SlotBits(c: bv32)
    ensures ((c >> 8) & 0xFF) << 8 == c & 0xFF00
    ensures ((c >> 16) & 0xFF) << 16 == c & 0xFF_0000
    ensures ((c >> 24) & 0xFF) << 24 == c & 0xFF00_0000
  {
  }

  lemma PlaceByteAt(c: bv32, i: nat)
    requires i < 4
    ensures Place(ByteAt(c, i), i) == And(c, Slot(i))
  {
    hide Low, Load;
    SlotBits(c);
    match i {
      case 0 => LoadLow(c);
      case 1 => LoadLow(c >> 8);
      case 2 => LoadLow(c >> 16);
      case _ => LoadLow(c >> 24);
    }
  }

  lemma {:induction false} SumOfSlots(c: bv32, i: nat)
    requires i <= 4
    ensures REG.Sum(REG.Places(REG.Unpack(c))[i..]) == And(c, SlotsFrom(i))
    decreases 4 - i
  {
    hide And, Xor, Place, ByteAt, Slot;
    var ws := REG.Places(REG.Unpack(c));
    if i == 4 {
      AndZero(c);
    } else {
      ByteAtIs(c, i);
      PlaceIs(ByteAt(c, i), i);
      PlaceByteAt(c, i);
      assert ws[i..][1..] == ws[i + 1..];
      SumOfSlots(c, i + 1);
      XorIs(And(c, Slot(i)), And(c, SlotsFrom(i + 1)));
      AndXor(c, Slot(i), SlotsFrom(i + 1));
    }
  }

  lemma PackUnpack(c: bv32)
    ensures REG.Pack(REG.Unpack(c)) == c
  {
    SumOfSlots(c, 0);
    AllSlots(c);
  }

  /** A little-endian load of four bytes. */
  function LoadLe(p: seq<byte>): bv32
    requires |p| == 4
  {
    Or4(Bits(p[0]), Bits(p[1]), Bits(p[2]), Bits(p[3]))
  }

  function Or4(p0: bv8, p1: bv8, p2: bv8, p3: bv8): bv32 {
    (p0 as bv32) | ((p1 as bv32) << 8) | ((p2 as bv32) << 16) | ((p3 as bv32) << 24)
  }

  lemma Or4Byte0(p0: bv8, p1: bv8, p2: bv8, p3: bv8)
    ensures Or4(p0, p1, p2, p3) & 0xFF == p0 as bv32
  {
  }

  lemma Or4Byte1(p0: bv8, p1: bv8, p2: bv8, p3: bv8)
    ensures (Or4(p0, p1, p2, p3) >> 8) & 0xFF == p1 as bv32
  {
  }

  lemma Or4Byte2(p0: bv8, p1: bv8, p2: bv8, p3: bv8)
    ensures (Or4(p0, p1, p2, p3) >> 16) & 0xFF == p2 as bv32
  {
  }

  lemma Or4Byte3(p0: bv8, p1: bv8, p2: bv8, p3: bv8)
    ensures (Or4(p0, p1, p2, p3) >> 24) & 0xFF == p3 as bv32
  {
  }

  lemma LoadLeByte(p: seq<byte>, i: nat)
    requires |p| == 4 && i < 4
    ensures Shifted(LoadLe(p), i) & 0xFF == Load(p[i])
  {
    hide Bits, Or4;
    var p0, p1, p2, p3 := Bits(p[0]), Bits(p[1]), Bits(p[2]), Bits(p[3]);
    match i {
      case 0 => Or4Byte0(p0, p1, p2, p3);
      case 1 => Or4Byte1(p0, p1, p2, p3);
      case 2 => Or4Byte2(p0, p1, p2, p3);
      case _ => Or4Byte3(p0, p1, p2, p3);
    }
  }

  lemma ByteAtLoadLe(p: seq<byte>, i: nat)
    requires |p| == 4 && i < 4
    ensures ByteAt(LoadLe(p), i) == p[i]
  {
    hide Shifted, LoadLe, Low, Load;
    LoadLeByte(p, i);
    LowOf(Shifted(LoadLe(p), i), p[i]);
  }

  lemma UnpackLoadLe(p: seq<byte>)
    requires |p| == 4
    ensures REG.Unpack(LoadLe(p)) == p
  {
    hide ByteAt, LoadLe;
    forall i: nat | i < 4 ensures REG.Unpack(LoadLe(p))[i] == p[i] {
      ByteAtIs(LoadLe(p), i);
      ByteAtLoadLe(p, i);
    }
  }

  lemma LoadLeIsPack(p: seq<byte>)
    requires |p| == 4
    ensures LoadLe(p) == REG.Pack(p) && REG.Unpack(REG.Pack(p)) == p
  {
    hide LoadLe;
    UnpackLoadLe(p);
    PackUnpack(LoadLe(p));
  }

  lemma IsPacked()
    ensures REG.Packed()
  {
    hide Place, ByteAt;
    forall b: byte, i: nat | i < 4 ensures REG.Steps(REG.place(b, i), 8 * i) == REG.place(b, 0) {
      PlaceIs(b, i);
      PlaceIs(b, 0);
      Delayed(b, i);
    }
    forall c ensures REG.Pack(REG.Unpack(c)) == c {
      PackUnpack(c);
    }
    forall bs: seq<byte> | |bs| == 4 ensures REG.Unpack(REG.Pack(bs)) == bs {
      LoadLeIsPack(bs);
    }
  }

  // ---- The byte table -------------------------------------------------------------------

  lemma SplitLow(x: bv32)
    ensures x == (x & 0xFF) ^ (x & 0xFFFF_FF00)
  {
  }

  lemma HighPart(c: bv32, w: bv8)
    ensures ((c ^ (w as bv32)) & 0xFFFF_FF00) & 0xFF == 0
    ensures ((c ^ (w as bv32)) & 0xFFFF_FF00) >> 8 == c >> 8
  {
  }

  /** The part of a register that a byte lookup does not cover. */
  function High(x: bv32): bv32 {
    x & 0xFFFF_FF00
  }

  lemma LowAndHigh(x: bv32)
    ensures x == Xor(Place(Low(x), 0), High(x))
  {
    hide Low, Load;
    LoadLow(x);
    SplitLow(x);
  }

  lemma HighShifts(c: bv32, b: byte)
    ensures REG.Steps(High(Xor(c, Place(b, 0))), 8) == c >> 8
  {
    hide Bits;
    HighPart(c, Bits(b));
    ShiftOut(High(Xor(c, Place(b, 0))));
  }

  lemma LooksUp(t: seq<bv32>, c: bv32, b: byte, low: byte, high: bv32)
    requires REG.IsTable(t, 0)
    requires REG.xor(c, REG.load(b)) == REG.xor(REG.load(low), high)
    ensures REG.Absorb(c, b) == REG.xor(t[low], REG.Steps(high, 8))
  {
    IsLawful();
    REG.AbsorbLooksUp(t, c, b, low, high);
  }

  lemma PlaceFirst(b: byte)
    ensures Place(b, 0) == Load(b)
  {
  }

  /** The byte-at-a-time step of the table algorithm. */
  function LookupStep(t: seq<bv32>, c: bv32, b: byte): bv32
    requires |t| == 256
  {
    Xor(t[Low(Xor(c, Load(b)))], c >> 8)
  }

  lemma AbsorbIsLookup(t: seq<bv32>, c: bv32, b: byte)
    requires REG.IsTable(t, 0)
    ensures REG.Absorb(c, b) == LookupStep(t, c, b)
  {
    hide Low, High, Load, Place, Xor;
    PlaceFirst(b);
    var x := Xor(c, Place(b, 0));
    PlaceIs(b, 0);
    PlaceIs(Low(x), 0);
    XorIs(c, Place(b, 0));
    LowAndHigh(x);
    XorIs(Place(Low(x), 0), High(x));
    LooksUp(t, c, b, Low(x), High(x));
    HighShifts(c, b);
    XorIs(t[Low(x)], c >> 8);
  }

  /** Building the byte table with eight steps for each entry. */
  method MakeTable() returns (table: seq<bv32>)
    ensures REG.IsTable(table, 0)
  {
    var entries := new bv32[256];
    for i := 0 to 256
      invariant forall j :: 0 <= j < i ==> entries[j] == REG.Steps(Load(j), 8)
    {
      var crc := Load(i);
      for bit := 0 to 8
        modifies {}
        invariant REG.Steps(crc, 8 - bit) == REG.Steps(Load(i), 8)
      {
        ghost var before := crc;
        if crc & 1 != 0 {
          crc := (crc >> 1) ^ 0xEDB8_8320;
        } else {
          crc := crc >> 1;
        }
        StepIs(before);
        assert REG.Steps(before, 8 - bit) == REG.Steps(REG.step(before), 8 - bit - 1);
      }
      entries[i] := crc;
    }
    table := entries[..];
    forall i | 0 <= i < 256 ensures table[i] == REG.Steps(REG.load(i), 8 * (0 + 1)) {
      PlaceIs(i, 0);
      PlaceFirst(i);
    }
  }

  /** The eight tables: entry i of table k is byte i followed by k zero bytes. */
  method MakeSlice8() returns (t: seq<seq<bv32>>)
    ensures REG.IsSlice8(t)
  {
    var first := MakeTable();
    t := [first];
    for k := 1 to 8
      invariant |t| == k && t[0] == first && forall j :: 0 <= j < k ==> REG.IsTable(t[j], j)
    {
      var next := NextSlice(first, t[k - 1], k);
      t := t + [next];
    }
  }

  /** The inner loop: every entry of the last table, followed by one more zero byte. */
  method NextSlice(first: seq<bv32>, last: seq<bv32>, k: nat) returns (next: seq<bv32>)
    requires k > 0 && REG.IsTable(first, 0) && REG.IsTable(last, k - 1)
    ensures REG.IsTable(next, k)
  {
    var entries := new bv32[256];
    for i := 0 to 256
      invariant forall j :: 0 <= j < i ==> entries[j] == REG.Steps(REG.load(j), 8 * (k + 1))
    {
      var previous := last[i];
      entries[i] := (previous >> 8) ^ first[Low(previous)];
      NextTable(first, previous, REG.load(i), k);
    }
    next := entries[..];
  }

  lemma NextTable(first: seq<bv32>, previous: bv32, entry: bv32, k: nat)
    requires REG.IsTable(first, 0) && previous == REG.Steps(entry, 8 * k)
    ensures (previous >> 8) ^ first[Low(previous)] == REG.Steps(entry, 8 * (k + 1))
  {
    REG.StepsAdd(entry, 8 * k, 8);
    StepsLookUp(first, previous);
  }

  lemma StepsLookUp(first: seq<bv32>, x: bv32)
    requires REG.IsTable(first, 0)
    ensures Xor(x >> 8, first[Low(x)]) == REG.Steps(x, 8)
  {
    hide Xor, Load, Low, Place;
    LoadZero();
    PlaceFirst(0);
    PlaceIs(0, 0);
    XorUnit(x);
    XorIs(x, 0);
    AbsorbIsLookup(first, x, 0);
    XorCommutes(x >> 8, first[Low(x)]);
  }

  lemma LoadZero()
    ensures Load(0) == 0
  {
  }

  // ---- Slicing by eight -------------------------------------------------------------------

  /** The update for one block of eight bytes, loaded as two words. */
  function Block(t: seq<seq<bv32>>, a: bv32, b: bv32): bv32
    requires |t| == 8 && forall k :: 0 <= k < 8 ==> |t[k]| == 256
  {
    Xor(Xor(Xor(Xor(Xor(Xor(Xor(
      t[7][Low(a)], t[6][Low(a >> 8)]), t[5][Low(a >> 16)]), t[4][Low(a >> 24)]),
      t[3][Low(b)]), t[2][Low(b >> 8)]), t[1][Low(b >> 16)]), t[0][Low(b >> 24)])
  }

  lemma XorsAre(a: seq<bv32>)
    requires |a| == 8
    ensures
      REG.xor(REG.xor(REG.xor(REG.xor(REG.xor(REG.xor(REG.xor(a[0], a[1]), a[2]), a[3]), a[4]), a[5]), a[6]), a[7])
         == Xor(Xor(Xor(Xor(Xor(Xor(Xor(a[0], a[1]), a[2]), a[3]), a[4]), a[5]), a[6]), a[7])
  {
    hide Xor;
    forall x, y ensures REG.xor(x, y) == Xor(x, y) {
      XorIs(x, y);
    }
  }

  function BytesOf(x: bv32): (r: seq<byte>)
    ensures |r| == 4
  {
    [Low(x), Low(x >> 8), Low(x >> 16), Low(x >> 24)]
  }

  lemma UnpackIsBytesOf(x: bv32)
    ensures REG.Unpack(x) == BytesOf(x)
  {
    hide Low;
    forall i: nat | i < 4 ensures REG.Unpack(x)[i] == Low(Shifted(x, i)) {
      ByteAtIs(x, i);
    }
  }

  lemma BlockLooksUp(t: seq<seq<bv32>>, a: bv32, b: bv32)
    requires REG.IsSlice8(t)
    ensures forall k :: 0 <= k < 8 ==> |t[k]| == 256
    ensures Block(t, a, b) == REG.Lookup8(t, BytesOf(a) + BytesOf(b))
  {
    hide Low, Xor;
    assert forall k :: 0 <= k < 8 ==> REG.IsTable(t[k], k);
    var q := BytesOf(a) + BytesOf(b);
    XorsAre([t[7][q[0]], t[6][q[1]], t[5][q[2]], t[4][q[3]], t[3][q[4]], t[2][q[5]], t[1][q[6]], t[0][q[7]]]);
  }

  lemma LookupIsSliced(t: seq<seq<bv32>>, q: seq<byte>)
    requires REG.IsSlice8(t) && |q| == 8
    ensures REG.Lookup8(t, q) == REG.Sliced(q)
  {
    IsLawful();
    REG.Lookup8IsSliced(t, q);
  }

  lemma FoldIsSliced(crc: bv32, first: seq<byte>, rest: seq<byte>)
    requires |first| == 4
    ensures REG.Fold(crc, first + rest) == REG.Sliced(REG.Unpack(REG.xor(crc, REG.Pack(first))) + rest)
  {
    IsLawful();
    IsPacked();
    REG.FoldBlock(crc, first, rest);
  }

  /** Eight lookups advance the register over eight bytes. */
  lemma BlockIsFold(t: seq<seq<bv32>>, crc: bv32, first: seq<byte>, rest: seq<byte>)
    requires REG.IsSlice8(t) && |first| == 4 && |rest| == 4
    ensures forall k :: 0 <= k < 8 ==> |t[k]| == 256
    ensures Block(t, Xor(LoadLe(first), crc), LoadLe(rest)) == REG.Fold(crc, first + rest)
  {
    hide Block, LoadLe, Xor, BytesOf;
    var a, b := Xor(LoadLe(first), crc), LoadLe(rest);
    LoadLeIsPack(first);
    LoadLeIsPack(rest);
    UnpackIsBytesOf(a);
    UnpackIsBytesOf(b);
    XorIs(crc, LoadLe(first));
    XorCommutes(crc, LoadLe(first));
    FoldIsSliced(crc, first, rest);
    BlockLooksUp(t, a, b);
    LookupIsSliced(t, BytesOf(a) + BytesOf(b));
  }

  lemma BlockAdvances(t: seq<seq<bv32>>, init: bv32, data: seq<byte>, p: nat)
    requires REG.IsSlice8(t) && p + 8 <= |data|
    ensures forall k :: 0 <= k < 8 ==> |t[k]| == 256
    ensures Block(t, Xor(LoadLe(data[p..p + 4]), REG.Fold(init, data[..p])), LoadLe(data[p + 4..p + 8]))
         == REG.Fold(init, data[..p + 8])
  {
    hide Block, Xor, LoadLe;
    var first, rest := data[p..p + 4], data[p + 4..p + 8];
    BlockIsFold(t, REG.Fold(init, data[..p]), first, rest);
    REG.FoldAppend(init, data[..p], first + rest);
    assert data[..p + 8] == data[..p] + (first + rest);
  }

  lemma ByteAdvances(t: seq<bv32>, init: bv32, data: seq<byte>, p: nat)
    requires REG.IsTable(t, 0) && p < |data|
    ensures LookupStep(t, REG.Fold(init, data[..p]), data[p]) == REG.Fold(init, data[..p + 1])
  {
    hide LookupStep;
    AbsorbIsLookup(t, REG.Fold(init, data[..p]), data[p]);
    REG.FoldAppend(init, data[..p], [data[p]]);
    REG.FoldOne(REG.Fold(init, data[..p]), data[p]);
    assert data[..p + 1] == data[..p] + [data[p]];
  }

  /** Slicing-by-8: eight bytes at a time, then the remainder byte by byte. */
  method Fast(data: seq<byte>, init: bv32, t: seq<seq<bv32>>) returns (result: bv32)
    requires REG.IsSlice8(t)
    ensures result == Crc(data, init)
  {
    hide Block, Xor, LoadLe, LookupStep;
    var crc, p, len := init, 0, |data|;
    assert data[..0] == [] && REG.IsTable(t[0], 0);
    while len >= 8
      invariant 0 <= p && 0 <= len && p + len == |data|
      invariant crc == REG.Fold(init, data[..p])
    {
      var a, b := LoadLe(data[p..p + 4]), LoadLe(data[p + 4..p + 8]);
      BlockAdvances(t, init, data, p);
      a := Xor(a, crc);
      crc := Block(t, a, b);
      p := p + 8;
      len := len - 8;
    }
    while len > 0
      invariant 0 <= p && 0 <= len && p + len == |data|
      invariant crc == REG.Fold(init, data[..p])
    {
      ByteAdvances(t[0], init, data, p);
      crc := LookupStep(t[0], crc, data[p]);
      p := p + 1;
      len := len - 1;
    }
    assert data[..p] == data;
    result := crc ^ 0xFFFF_FFFF;
  }

  /** The byte-at-a-time loop used at compile time. */
  method Bytewise(data: seq<byte>, init: bv32, table: seq<bv32>) returns (result: bv32)
    requires REG.IsTable(table, 0)
    ensures result == Crc(data, init)
  {
    var crc := init;
    for i := 0 to |data|
      invariant crc == REG.Fold(init, data[..i])
    {
      ByteAdvances(table, init, data, i);
      crc := LookupStep(table, crc, data[i]);
    }
    assert data[..|data|] == data;
    result := crc ^ 0xFFFF_FFFF;
  }

  method Ethernet(data: seq<byte>, init: bv32) returns (result: bv32)
    ensures result == Crc(data, init)
  {
    var t := MakeSlice8();
    result := Fast(data, init, t);
  }

  // ---- A checksum as four big-endian bytes ------------------------------------------------

  function Reversed(p: seq<byte>): (r: seq<byte>)
    requires |p| == 4
    ensures |r| == 4
  {
    [p[3], p[2], p[1], p[0]]
  }

  function WriteBe(c: bv32): (r: seq<byte>)
    ensures |r| == 4
  {
    Reversed(BytesOf(c))
  }

  function ReadBe(p: seq<byte>): bv32
    requires |p| == 4
  {
    LoadLe(Reversed(p))
  }

  lemma ReversedTwice(p: seq<byte>)
    requires |p| == 4
    ensures Reversed(Reversed(p)) == p
  {
  }

  lemma ReadWritten(c: bv32)
    ensures ReadBe(WriteBe(c)) == c
  {
    hide LoadLe, BytesOf, Reversed;
    ReversedTwice(BytesOf(c));
    UnpackIsBytesOf(c);
    LoadLeIsPack(REG.Unpack(c));
    PackUnpack(c);
  }

  lemma WriteRead(p: seq<byte>)
    requires |p| == 4
    ensures WriteBe(ReadBe(p)) == p
  {
    hide LoadLe, BytesOf, Reversed;
    ReversedTwice(p);
    UnpackLoadLe(Reversed(p));
    UnpackIsBytesOf(LoadLe(Reversed(p)));
  }

  /** The bytes of a checksum on the wire, the most significant one first. */
  lemma WireBytes(c: bv32)
    ensures Load(WriteBe(c)[0]) == (c >> 24) & 0xFF
    ensures Load(WriteBe(c)[1]) == (c >> 16) & 0xFF
    ensures Load(WriteBe(c)[2]) == (c >> 8) & 0xFF
    ensures Load(WriteBe(c)[3]) == c & 0xFF
  {
    BitsOfFromBits(((c >> 24) & 0xFF) as bv8);
    BitsOfFromBits(((c >> 16) & 0xFF) as bv8);
    BitsOfFromBits(((c >> 8) & 0xFF) as bv8);
    BitsOfFromBits((c & 0xFF) as bv8);
  }

  // ---- Error detection ----------------------------------------------------------------------

  lemma FinalInverts(c: bv32)
    ensures Final(c) == Xor(c, 0xFFFF_FFFF)
  {
  }

  lemma FinalInjective(a: bv32, b: bv32)
    requires Final(a) == Final(b)
    ensures a == b
  {
    assert (a ^ 0xFFFF_FFFF) ^ 0xFFFF_FFFF == a && (b ^ 0xFFFF_FFFF) ^ 0xFFFF_FFFF == b;
  }

  lemma FoldsDiffer(init: bv32, pre: seq<byte>, u: seq<byte>, v: seq<byte>, post: seq<byte>)
    requires |u| == |v| <= 4
    ensures REG.Fold(init, pre + u + post) == REG.Fold(init, pre + v + post) <==> u == v
  {
    IsLawful();
    IsPacked();
    IsInjective();
    REG.BurstDetected(init, pre, u, v, post);
  }

  /** Two messages that differ only inside four consecutive bytes have different checksums. */
  lemma BurstDetected(pre: seq<byte>, u: seq<byte>, v: seq<byte>, post: seq<byte>, init: bv32)
    requires |u| == |v| <= 4
    ensures Crc(pre + u + post, init) == Crc(pre + v + post, init) <==> u == v
  {
    hide Final;
    FoldsDiffer(init, pre, u, v, post);
    if Crc(pre + u + post, init) == Crc(pre + v + post, init) {
      FinalInjective(REG.Fold(init, pre + u + post), REG.Fold(init, pre + v + post));
    }
  }

  /** Damage confined to four consecutive bytes changes the checksum. */
  lemma DamageDetected(p: seq<byte>, q: seq<byte>, lo: nat, n: nat, init: bv32)
    requires DifferInside(p, q, lo, n) && n <= 4
    ensures Crc(p, init) == Crc(q, init) <==> p == q
  {
    hide Crc;
    SplitWindow(p, q, lo, n);
    BurstDetected(p[..lo], p[lo..lo + n], q[lo..lo + n], p[lo + n..], init);
  }

  lemma WriteBeInjective(a: bv32, b: bv32)
    requires WriteBe(a) == WriteBe(b)
    ensures a == b
  {
    hide WriteBe, ReadBe;
    ReadWritten(a);
    ReadWritten(b);
  }

  // ---- Values of the checksum ---------------------------------------------------------------

  const ONES: bv32 := 0xFFFF_FFFF

  function FourSteps(c: bv32): bv32 {
    Step(Step(Step(Step(c))))
  }

  lemma FourStepsAre(c: bv32)
    ensures REG.FourSteps(c) == FourSteps(c)
  {
    hide Step;
    StepIs(c);
    StepIs(Step(c));
    StepIs(Step(Step(c)));
    StepIs(Step(Step(Step(c))));
  }

  predicate Reaches(front: seq<byte>, c: bv32) {
    REG.Fold(ONES, front) == c
  }

  /** What a byte does to the register. */
  predicate Advances(c: bv32, b: byte, after: bv32) {
    after == FourSteps(FourSteps(Xor(c, Load(b))))
  }

  lemma Digit1()
    ensures Advances(ONES, 0x31, 0x7C23_1048)
  {
    assert Load(0x31) == 0x0000_0031;
  }

  lemma Digit2()
    ensures Advances(0x7C23_1048, 0x32, 0xB0AC_BB32)
  {
    assert Load(0x32) == 0x0000_0032;
  }

  lemma Digit3()
    ensures Advances(0xB0AC_BB32, 0x33, 0x77B7_9C2D)
  {
    assert Load(0x33) == 0x0000_0033;
  }

  lemma Digit4()
    ensures Advances(0x77B7_9C2D, 0x34, 0x641C_1F5C)
  {
    assert Load(0x34) == 0x0000_0034;
  }

  lemma Digit5()
    ensures Advances(0x641C_1F5C, 0x35, 0x340A_C5E3)
  {
    assert Load(0x35) == 0x0000_0035;
  }

  lemma Digit6()
    ensures Advances(0x340A_C5E3, 0x36, 0xF68D_2C9E)
  {
    assert Load(0x36) == 0x0000_0036;
  }

  lemma Digit7()
    ensures Advances(0xF68D_2C9E, 0x37, 0xAFFC_9660)
  {
    assert Load(0x37) == 0x0000_0037;
  }

  lemma Digit8()
    ensures Advances(0xAFFC_9660, 0x38, 0x651F_2550)
  {
    assert Load(0x38) == 0x0000_0038;
  }

  lemma Digit9()
    ensures Advances(0x651F_2550, 0x39, 0x340B_C6D9)
  {
    assert Load(0x39) == 0x0000_0039;
  }

  lemma NextByte(front: seq<byte>, c: bv32, b: byte, after: bv32)
    requires Reaches(front, c) && Advances(c, b, after)
    ensures Reaches(front + [b], after)
  {
    hide FourSteps, Load, Xor;
    var x := Xor(c, Load(b));
    PlaceIs(b, 0);
    PlaceFirst(b);
    XorIs(c, Load(b));
    FourStepsAre(x);
    FourStepsAre(FourSteps(x));
    REG.OneMoreByte(ONES, front, b, x, after);
  }

  lemma FirstDigits()
    ensures Reaches([0x31, 0x32, 0x33, 0x34], 0x641C_1F5C)
  {
    hide Advances, Reaches;
    Digit1();
    Digit2();
    Digit3();
    Digit4();
    NothingReaches();
    var m: seq<byte> := [];
    NextByte(m, ONES, 0x31, 0x7C23_1048);
    m := m + [0x31];
    NextByte(m, 0x7C23_1048, 0x32, 0xB0AC_BB32);
    m := m + [0x32];
    NextByte(m, 0xB0AC_BB32, 0x33, 0x77B7_9C2D);
    m := m + [0x33];
    NextByte(m, 0x77B7_9C2D, 0x34, 0x641C_1F5C);
    m := m + [0x34];
    assert m == [0x31, 0x32, 0x33, 0x34];
  }

  /** The published check value: the checksum of the nine digits "123456789". */
  lemma CheckValue()
    ensures Crc([0x31, 0x32, 0x33, 0x34, 0x35, 0x36, 0x37, 0x38, 0x39], ONES) == 0xCBF4_3926
  {
    hide Advances, Reaches, Crc, Final;
    FirstDigits();
    Digit5();
    Digit6();
    Digit7();
    Digit8();
    Digit9();
    var m: seq<byte> := [0x31, 0x32, 0x33, 0x34];
    NextByte(m, 0x641C_1F5C, 0x35, 0x340A_C5E3);
    m := m + [0x35];
    NextByte(m, 0x340A_C5E3, 0x36, 0xF68D_2C9E);
    m := m + [0x36];
    NextByte(m, 0xF68D_2C9E, 0x37, 0xAFFC_9660);
    m := m + [0x37];
    NextByte(m, 0xAFFC_9660, 0x38, 0x651F_2550);
    m := m + [0x38];
    NextByte(m, 0x651F_2550, 0x39, 0x340B_C6D9);
    m := m + [0x39];
    assert m == [0x31, 0x32, 0x33, 0x34, 0x35, 0x36, 0x37, 0x38, 0x39];
    ReachedCrc(m, 0x340B_C6D9);
    FinalOf9();
  }

  lemma NothingReaches()
    ensures Reaches([], ONES)
  {
  }

  lemma ReachedCrc(data: seq<byte>, c: bv32)
    requires Reaches(data, c)
    ensures Crc(data, ONES) == Final(c)
  {
  }

  lemma FinalOf9()
    ensures Final(0x340B_C6D9) == 0xCBF4_3926
  {
  }

  lemma NextEight(c: bv32, after: bv32, n: nat)
    requires after == FourSteps(FourSteps(c))
    ensures REG.Steps(c, 8 + n) == REG.Steps(after, n)
  {
    hide FourSteps;
    FourStepsAre(c);
    FourStepsAre(FourSteps(c));
    REG.EightSteps(c);
    REG.StepsAdd(c, 8, n);
  }

  lemma StepsOfOnes()
    ensures REG.Steps(ONES, 32) == 0xDEBB_20E3
  {
    NextEight(0xFFFF_FFFF, 0x2DFD_1072, 24);
    NextEight(0x2DFD_1072, 0xBE26_ED00, 16);
    NextEight(0xBE26_ED00, 0x00BE_26ED, 8);
    NextEight(0x00BE_26ED, 0xDEBB_20E3, 0);
  }

  lemma SumsToOnes(c: bv32, word: bv32)
    ensures Xor(c, word) == ONES <==> word == Xor(c, 0xFFFF_FFFF)
  {
    SumIsOnes(c, word);
    if Xor(c, word) == ONES {
      assert Xor(c, Xor(c, word)) == word;
    }
  }

  lemma SumIsOnes(c: bv32, word: bv32)
    ensures word == Xor(c, 0xFFFF_FFFF) ==> Xor(c, word) == ONES
  {
  }

  /**
  The residue: a message that is followed by four bytes, read as a word with the least significant one first,
  has this one checksum exactly if that word is the checksum of the message.
  */
  lemma ResidueExactly(data: seq<byte>, tail: seq<byte>, init: bv32)
    requires |tail| == 4
    ensures Crc(data + tail, init) == 0x2144_DF1C <==> LoadLe(tail) == Crc(data, init)
  {
    hide Xor, Final, LoadLe;
    IsLawful();
    IsPacked();
    IsInjective();
    var c, word := REG.Fold(init, data), LoadLe(tail);
    UnpackLoadLe(tail);
    REG.EndingsAgree(init, data, word, ONES);
    StepsOfOnes();
    XorIs(c, word);
    SumsToOnes(c, word);
    FinalInverts(c);
    FinalInverts(REG.Fold(init, data + tail));
    SumsToConstant(REG.Fold(init, data + tail));
  }

  lemma SumsToConstant(c: bv32)
    ensures Xor(c, 0xFFFF_FFFF) == 0x2144_DF1C <==> c == 0xDEBB_20E3
  {
  }

  // ---- Bit by bit ---------------------------------------------------------------------------------

  /** The bit that falls out with the next step, and the bit at the low end. */
  function Falls(x: bv32): bool {
    x & 1 != 0
  }

  function Last(x: bv32): bool {
    x & 0x8000_0000 != 0
  }

  const SHIFT: Shift<bv32> := Shift(Falls, Out, Last, 0x8000_0000, 1, 32)

  lemma FallsXor(a: bv32, b: bv32)
    ensures Falls(Xor(a, b)) == (Falls(a) != Falls(b))
  {
  }

  lemma LastXor(a: bv32, b: bv32)
    ensures Last(Xor(a, b)) == (Last(a) != Last(b))
  {
  }

  lemma LastShifted(a: bv32)
    ensures !Last(Out(a))
  {
  }

  lemma StepOfTop()
    ensures Step(1) == 0xEDB8_8320
  {
  }

  lemma StepFalls(x: bv32)
    requires Falls(x)
    ensures Step(x) == Xor(0xEDB8_8320, Out(x))
  {
  }

  lemma StepQuiet(x: bv32)
    requires !Falls(x)
    ensures Step(x) == Xor(0, Out(x))
  {
  }

  lemma StepShifts(x: bv32)
    ensures Step(x) == Xor(if Falls(x) then Step(1) else 0, Out(x))
  {
    hide Step, Falls, Xor, Out;
    StepOfTop();
    if Falls(x) {
      StepFalls(x);
    } else {
      StepQuiet(x);
    }
  }

  lemma {:induction false} ShiftedIs(x: bv32, n: nat)
    ensures REG.Shifted(SHIFT, x, n) == ShiftRight(x, n)
    decreases n
  {
    hide Out;
    if n > 0 {
      ShiftedIs(Out(x), n - 1);
    }
  }

  lemma LoadIs(b: byte)
    ensures REG.load(b) == Load(b)
  {
    hide Load, Place;
    PlaceIs(b, 0);
    PlaceFirst(b);
  }

  lemma WordShiftsOut(w: bv8)
    ensures ShiftRight(w as bv32, 8) == 0
  {
  }

  lemma LoadShiftsOut(b: byte)
    ensures ShiftRight(Load(b), 8) == 0
  {
    hide Bits, ShiftRight;
    WordShiftsOut(Bits(b));
  }

  lemma {:induction false} QuietIs(x: bv32, n: nat)
    requires Quiet(x, n)
    ensures REG.Quiet(SHIFT, x, n)
    decreases n
  {
    if n > 0 {
      QuietIs(Out(x), n - 1);
    }
  }

  lemma LowQuiet()
    ensures Quiet(0x8000_0000, 31)
  {
    assert Quiet(0x80, 7);
    assert Quiet(0x8000, 15);
    assert Quiet(0x800000, 23);
    assert Quiet(0x80000000, 31);
  }

  lemma LowShifted()
    ensures ShiftRight(0x8000_0000, 31) == 1
  {
    assert ShiftRight(0x80, 7) == 1;
    assert ShiftRight(0x8000, 15) == 1;
    assert ShiftRight(0x800000, 23) == 1;
    assert ShiftRight(0x80000000, 31) == 1;
  }

  lemma LowReachesTop()
    ensures REG.Steps(0x8000_0000, 32) == REG.step(1)
  {
    hide Quiet, ShiftRight, Step;
    LowQuiet();
    LowShifted();
    QuietSteps(0x8000_0000, 31);
    REG.StepsAdd(0x8000_0000, 31, 1);
  }

  lemma IsShift()
    ensures REG.Shifts(SHIFT)
  {
    hide Xor, Step, Falls, Out, Load, ShiftRight;
    forall x ensures REG.StepShifts(SHIFT, x) {
      StepIs(x);
      StepIs(1);
      StepShifts(x);
      XorIs(if Falls(x) then Step(1) else 0, Out(x));
    }
    forall b: byte ensures REG.Shifted(SHIFT, REG.load(b), 8) == 0 {
      LoadIs(b);
      ShiftedIs(Load(b), 8);
      LoadShiftsOut(b);
    }
    LowReachesTop();
  }

  lemma LowStaysQuiet()
    ensures REG.Quiet(SHIFT, 0x8000_0000, 31)
  {
    hide Falls, Last, Out, Quiet;
    LowQuiet();
    QuietIs(0x8000_0000, 31);
  }

  lemma Ends()
    ensures Last(0x8000_0000) && !Falls(0) && !Last(0)
  {
  }

  lemma IsDigits()
    ensures REG.Digits(SHIFT)
  {
    hide Falls, Last, Xor, Out, Quiet;
    Ends();
    LowStaysQuiet();
    forall a, b ensures SHIFT.falls(REG.xor(a, b)) == (SHIFT.falls(a) != SHIFT.falls(b)) {
      XorIs(a, b);
      FallsXor(a, b);
    }
    forall a, b ensures SHIFT.last(REG.xor(a, b)) == (SHIFT.last(a) != SHIFT.last(b)) {
      XorIs(a, b);
      LastXor(a, b);
    }
    forall a ensures !SHIFT.last(SHIFT.out(a)) {
      LastShifted(a);
    }
  }

  lemma FoldIsRemainder(c: bv32, data: seq<byte>)
    ensures REG.Fold(c, data) == REG.xor(REG.Divide(c, 0x8000_0000, REG.NoBits(8 * |data|)),
                                         REG.Divide(0, 0x8000_0000, REG.Message(SHIFT, data) + REG.NoBits(32)))
  {
    IsLawful();
    IsShift();
    REG.FoldIsRemainder(SHIFT, c, data);
  }

  /**
  The checksum is the inverted remainder, by long division, of init * x^|m| + m * x^32, where m is the
  message with the least significant bit of each byte first.
  */
  lemma CrcIsRemainder(data: seq<byte>, init: bv32)
    ensures Crc(data, init)
         == Xor(Xor(REG.Divide(init, 0x8000_0000, REG.NoBits(8 * |data|)),
                          REG.Divide(0, 0x8000_0000, REG.Message(SHIFT, data) + REG.NoBits(32))), 0xFFFF_FFFF)
  {
    hide Final, Xor;
    FoldIsRemainder(init, data);
    FinalInverts(REG.Fold(init, data));
    XorIs(REG.Divide(init, 0x8000_0000, REG.NoBits(8 * |data|)),
          REG.Divide(0, 0x8000_0000, REG.Message(SHIFT, data) + REG.NoBits(32)));
  }

  lemma BurstFoldsDiffer(p: seq<byte>, q: seq<byte>, lo: nat, k: nat, init: bv32)
    requires k <= 32 && REG.BitsDifferInside(REG.Message(SHIFT, p), REG.Message(SHIFT, q), lo, k)
    ensures REG.Fold(init, p) == REG.Fold(init, q) <==> p == q
  {
    IsLawful();
    IsPacked();
    IsInjective();
    IsShift();
    IsDigits();
    REG.MessageBurstDetected(SHIFT, init, p, q, lo, k);
  }

  /**
  An error burst of at most 32 consecutive bits, wherever it starts and whatever bytes it touches, changes
  the checksum.
  */
  lemma BitBurstDetected(p: seq<byte>, q: seq<byte>, lo: nat, k: nat, init: bv32)
    requires k <= 32 && REG.BitsDifferInside(REG.Message(SHIFT, p), REG.Message(SHIFT, q), lo, k)
    ensures Crc(p, init) == Crc(q, init) <==> p == q
  {
    hide Final;
    BurstFoldsDiffer(p, q, lo, k, init);
    if Crc(p, init) == Crc(q, init) {
      FinalInjective(REG.Fold(init, p), REG.Fold(init, q));
    }
  }
}
