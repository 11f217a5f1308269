/** CRC-64, most significant bit first: the bitwise definition, the byte table and slicing-by-8. */
module Crc64 {
  import opened Bytes
  import opened LinearRegister

  // ---- The register -----------------------------------------------------------------

  /** Shift one bit out to the left; subtract the polynomial if it was set. */
  function Step(c: bv64): bv64 {
    if c & 0x8000_0000_0000_0000 != 0 then (c << 1) ^ 0x42F0_E1EB_A9EA_3693 else c << 1
  }

  function Xor(a: bv64, b: bv64): bv64 {
    a ^ b
  }

  function Widen(b: byte): bv64 {
    Bits(b) as bv64
  }

  /** A byte at the end of the register from which bits leave. */
  function Load(b: byte): bv64 {
    Widen(b) << 56
  }

  function Top(x: bv64): byte {
    FromBits((x >> 56) as bv8)
  }

  function Place(b: byte, i: nat): bv64 {
    match i {
      case 0 => Load(b)
      case 1 => Widen(b) << 48
      case 2 => Widen(b) << 40
      case 3 => Widen(b) << 32
      case 4 => Widen(b) << 24
      case 5 => Widen(b) << 16
      case 6 => Widen(b) << 8
      case _ => Widen(b)
    }
  }

  /** The i-th byte of a word, most significant first: shifted right and truncated to eight bits. */
  function ByteAt(x: bv64, i: nat): byte {
    match i {
      case 0 => Top(x)
      case 1 => Low(x >> 48)
      case 2 => Low(x >> 40)
      case 3 => Low(x >> 32)
      case 4 => Low(x >> 24)
      case 5 => Low(x >> 16)
      case 6 => Low(x >> 8)
      case _ => Low(x)
    }
  }

  function Low(x: bv64): byte {
    FromBits((x & 0xFF) as bv8)
  }

  const REG: Register<bv64> := Register(0, Xor, Step, 8, Place, ByteAt)

  function Final(c: bv64): bv64 {
    c ^ 0xFFFF_FFFF_FFFF_FFFF
  }

  /** The checksum by its bitwise definition. */
  function Crc(data: seq<byte>, init: bv64): bv64 {
    Final(REG.Fold(init, data))
  }

  // ---- Calls through the register ---------------------------------------------------

  lemma XorIs(a: bv64, b: bv64)
    ensures REG.xor(a, b) == Xor(a, b)
  {
  }

  lemma StepIs(a: bv64)
    ensures REG.step(a) == Step(a)
  {
  }

  lemma PlaceIs(b: byte, i: nat)
    ensures REG.place(b, i) == Place(b, i)
  {
  }

  lemma ByteAtIs(x: bv64, i: nat)
    ensures REG.byteAt(x, i) == ByteAt(x, i)
  {
  }

  // ---- The step is linear and invertible ----------------------------------------------

  lemma XorShift(a: bv64, b: bv64)
    ensures (a ^ b) << 1 == (a << 1) ^ (b << 1)
  {
  }

  lemma XorTopBit(a: bv64, b: bv64)
    ensures (a ^ b) & 0x8000_0000_0000_0000 == (a & 0x8000_0000_0000_0000) ^ (b & 0x8000_0000_0000_0000)
  {
  }

  lemma TopBitCases(a: bv64)
    ensures a & 0x8000_0000_0000_0000 == 0 || a & 0x8000_0000_0000_0000 == 0x8000_0000_0000_0000
  {
  }

  lemma StepLinear11(a: bv64, b: bv64)
    requires a & 0x8000_0000_0000_0000 == 0x8000_0000_0000_0000 && b & 0x8000_0000_0000_0000 == 0x8000_0000_0000_0000
    ensures Step(a ^ b) == Step(a) ^ Step(b)
  {
    XorShift(a, b);
    XorTopBit(a, b);
  }

  lemma StepLinear10(a: bv64, b: bv64)
    requires a & 0x8000_0000_0000_0000 == 0x8000_0000_0000_0000 && b & 0x8000_0000_0000_0000 == 0
    ensures Step(a ^ b) == Step(a) ^ Step(b)
  {
    XorShift(a, b);
    XorTopBit(a, b);
  }

  lemma StepLinear01(a: bv64, b: bv64)
    requires a & 0x8000_0000_0000_0000 == 0 && b & 0x8000_0000_0000_0000 == 0x8000_0000_0000_0000
    ensures Step(a ^ b) == Step(a) ^ Step(b)
  {
    XorShift(a, b);
    XorTopBit(a, b);
  }

  lemma StepLinear00(a: bv64, b: bv64)
    requires a & 0x8000_0000_0000_0000 == 0 && b & 0x8000_0000_0000_0000 == 0
    ensures Step(a ^ b) == Step(a) ^ Step(b)
  {
    XorShift(a, b);
    XorTopBit(a, b);
  }

  lemma StepLinear(a: bv64, b: bv64)
    ensures Step(Xor(a, b)) == Xor(Step(a), Step(b))
  {
    TopBitCases(a);
    TopBitCases(b);
    if a & 0x8000_0000_0000_0000 == 0x8000_0000_0000_0000 {
      if b & 0x8000_0000_0000_0000 == 0x8000_0000_0000_0000 { StepLinear11(a, b); } else { StepLinear10(a, b); }
    } else {
      if b & 0x8000_0000_0000_0000 == 0x8000_0000_0000_0000 { StepLinear01(a, b); } else { StepLinear00(a, b); }
    }
  }

  lemma StepKernel(c: bv64)
    requires Step(c) == 0
    ensures c == 0
  {
    assert ((c << 1) ^ 0x42F0_E1EB_A9EA_3693) & 1 == 1;
  }

  lemma XorOfEquals(a: bv64)
    ensures Xor(a, a) == 0
  {
  }

  lemma XorIsZero(a: bv64, b: bv64)
    requires Xor(a, b) == 0
    ensures a == b
  {
  }

  lemma StepInjective(a: bv64, b: bv64)
    requires Step(a) == Step(b)
    ensures a == b
  {
    hide Step, Xor;
    StepLinear(a, b);
    XorOfEquals(Step(a));
    StepKernel(Xor(a, b));
    XorIsZero(a, b);
  }

  lemma XorBits(a: bv64, b: bv64)
    ensures Xor(a, b) == a ^ b
  {
  }

  lemma XorArguments(a: bv64, b: bv64, c: bv64, d: bv64)
    ensures Xor(Xor(a, b), Xor(c, d)) == Xor(a ^ b, c ^ d)
  {
    hide Xor;
    XorBits(a, b);
    XorBits(c, d);
  }

  lemma ExchangeBits(a: bv64, b: bv64, c: bv64, d: bv64)
    ensures (a ^ b) ^ (c ^ d) == (a ^ c) ^ (b ^ d)
  {
  }

  lemma ExchangeArguments(a: bv64, b: bv64, c: bv64, d: bv64)
    ensures Xor(a ^ b, c ^ d) == Xor(a ^ c, b ^ d)
  {
    ExchangeBits(a, b, c, d);
  }

  lemma XorExchange(a: bv64, b: bv64, c: bv64, d: bv64)
    ensures Xor(Xor(a, b), Xor(c, d)) == Xor(Xor(a, c), Xor(b, d))
  {
    hide Xor;
    XorArguments(a, b, c, d);
    XorArguments(a, c, b, d);
    ExchangeArguments(a, b, c, d);
  }

  lemma XorUnit(a: bv64)
    ensures Xor(a, 0) == a && Xor(0, a) == a
  {
  }

  lemma XorCancels(a: bv64, b: bv64, c: bv64)
    requires Xor(a, c) == Xor(b, c)
    ensures a == b
  {
    assert (a ^ c) ^ c == a && (b ^ c) ^ c == b;
  }

  lemma XorCommutes(a: bv64, b: bv64)
    ensures Xor(a, b) == Xor(b, a)
  {
  }

  lemma Sum4Exchange(a: bv64, b: bv64, c: bv64, d: bv64)
    ensures REG.Sum4(a, b, c, d) == REG.Sum4(a, c, b, d)
  {
    hide Xor;
    XorIs(a, b);
    XorIs(c, d);
    XorIs(Xor(a, b), Xor(c, d));
    XorIs(a, c);
    XorIs(b, d);
    XorIs(Xor(a, c), Xor(b, d));
    XorExchange(a, b, c, d);
  }

  lemma StepDistributes(a: bv64, b: bv64)
    ensures REG.step(REG.xor(a, b)) == REG.xor(REG.step(a), REG.step(b))
  {
    hide Xor, Step;
    XorIs(a, b);
    StepIs(a);
    StepIs(b);
    StepIs(Xor(a, b));
    XorIs(Step(a), Step(b));
    StepLinear(a, b);
  }

  lemma IsLawful()
    ensures REG.Lawful()
  {
    hide Xor, Step;
    forall a, b, c, d ensures REG.Sum4(a, b, c, d) == REG.Sum4(a, c, b, d) {
      Sum4Exchange(a, b, c, d);
    }
    forall a ensures REG.xor(a, REG.zero) == a && REG.xor(REG.zero, a) == a {
      XorIs(a, 0);
      XorIs(0, a);
      XorUnit(a);
    }
    forall a, b ensures REG.step(REG.xor(a, b)) == REG.xor(REG.step(a), REG.step(b)) {
      StepDistributes(a, b);
    }
    StepZero();
    StepIs(0);
  }

  lemma StepZero()
    ensures Step(0) == 0
  {
  }

  lemma IsInjective()
    ensures REG.Injective()
  {
    hide Xor, Step;
    forall a, b | REG.step(a) == REG.step(b) ensures a == b {
      StepIs(a);
      StepIs(b);
      StepInjective(a, b);
    }
    forall a, b, c | REG.xor(a, c) == REG.xor(b, c) ensures a == b {
      XorIs(a, c);
      XorIs(b, c);
      XorCancels(a, b, c);
    }
    forall a, b, c | REG.xor(c, a) == REG.xor(c, b) ensures a == b {
      XorIs(c, a);
      XorIs(c, b);
      XorCommutes(a, c);
      XorCommutes(b, c);
      XorCancels(a, b, c);
    }
  }

  // ---- Bytes inside the register --------------------------------------------------------

  /** The top n bits of x are clear. */
  predicate Quiet(x: bv64, n: nat)
    decreases n
  {
    n == 0 || (x & 0x8000_0000_0000_0000 == 0 && Quiet(Out(x), n - 1))
  }

  /** One place towards the end of the register from which bits leave, and one place back. */
  function Out(x: bv64): bv64 {
    x << 1
  }

  function Back(x: bv64): bv64 {
    x >> 1
  }

  function ShiftLeft(x: bv64, n: nat): bv64
    decreases n
  {
    if n == 0 then x else ShiftLeft(Out(x), n - 1)
  }

  lemma {:induction false} QuietSteps(x: bv64, n: nat)
    requires Quiet(x, n)
    ensures REG.Steps(x, n) == ShiftLeft(x, n)
    decreases n
  {
    if n > 0 {
      StepIs(x);
      QuietSteps(Out(x), n - 1);
    }
  }

  lemma QuietByte(x: bv64)
    requires x & 0xFF00_0000_0000_0000 == 0
    ensures Quiet(x, 8)
  {
  }

  lemma ShiftByte(x: bv64)
    ensures ShiftLeft(x, 8) == x << 8
  {
  }

  /** Eight steps only shift while the top byte is zero. */
  lemma ShiftOut(x: bv64)
    requires x & 0xFF00_0000_0000_0000 == 0
    ensures REG.Steps(x, 8) == x << 8
  {
    hide Quiet, ShiftLeft;
    QuietByte(x);
    QuietSteps(x, 8);
    ShiftByte(x);
  }

  lemma WidenQuiet(w: bv8)
    ensures (w as bv64) & 0xFF00_0000_0000_0000 == 0
    ensures ((w as bv64) << 8) & 0xFF00_0000_0000_0000 == 0 && ((w as bv64) << 16) & 0xFF00_0000_0000_0000 == 0
    ensures ((w as bv64) << 24) & 0xFF00_0000_0000_0000 == 0 && ((w as bv64) << 32) & 0xFF00_0000_0000_0000 == 0
    ensures ((w as bv64) << 40) & 0xFF00_0000_0000_0000 == 0 && ((w as bv64) << 48) & 0xFF00_0000_0000_0000 == 0
  {
  }

  lemma PlaceQuiet(b: byte, i: nat)
    requires 0 < i
    ensures Place(b, i) & 0xFF00_0000_0000_0000 == 0
  {
    hide Bits;
    WidenQuiet(Bits(b));
  }

  lemma PlaceShifts1(b: byte)
    ensures Place(b, 1) << 8 == Place(b, 0)
  {
  }

  lemma PlaceShifts2(b: byte)
    ensures Place(b, 2) << 8 == Place(b, 1)
  {
  }

  lemma PlaceShifts3(b: byte)
    ensures Place(b, 3) << 8 == Place(b, 2)
  {
  }

  lemma PlaceShifts4(b: byte)
    ensures Place(b, 4) << 8 == Place(b, 3)
  {
  }

  lemma PlaceShifts5(b: byte)
    ensures Place(b, 5) << 8 == Place(b, 4)
  {
  }

  lemma PlaceShifts6(b: byte)
    ensures Place(b, 6) << 8 == Place(b, 5)
  {
  }

  lemma PlaceShifts7(b: byte)
    ensures Place(b, 7) << 8 == Place(b, 6)
  {
  }

  lemma PlaceShifts(b: byte, i: nat)
    requires 0 < i < 8
    ensures Place(b, i) << 8 == Place(b, i - 1)
  {
    hide Place;
    match i {
      case 1 => PlaceShifts1(b);
      case 2 => PlaceShifts2(b);
      case 3 => PlaceShifts3(b);
      case 4 => PlaceShifts4(b);
      case 5 => PlaceShifts5(b);
      case 6 => PlaceShifts6(b);
      case _ => PlaceShifts7(b);
    }
  }

  lemma {:induction false} Delayed(b: byte, i: nat)
    requires i < 8
    ensures REG.Steps(Place(b, i), 8 * i) == Place(b, 0)
  {
    hide Place;
    if i > 0 {
      assert REG.Steps(Place(b, i), 8) == Place(b, i - 1) by {
        PlaceQuiet(b, i);
        PlaceShifts(b, i);
        ShiftOut(Place(b, i));
      }
      REG.StepsAdd(Place(b, i), 8, 8 * (i - 1));
      Delayed(b, i - 1);
    }
  }

  lemma WidenLow(x: bv64)
    ensures Widen(Low(x)) == x & 0xFF
  {
    BitsOfFromBits((x & 0xFF) as bv8);
  }

  lemma LoadTop(x: bv64)
    ensures Load(Top(x)) == x & 0xFF00_0000_0000_0000
  {
    BitsOfFromBits((x >> 56) as bv8);
    assert (((x >> 56) as bv8) as bv64) << 56 == x & 0xFF00_0000_0000_0000;
  }

  function And(x: bv64, m: bv64): bv64 {
    x & m
  }

  lemma AndXorBits(x: bv64, m: bv64, n: bv64)
    ensures (x & m) ^ (x & n) == x & (m ^ n)
  {
  }

  lemma AndXorLeft(x: bv64, m: bv64, n: bv64)
    ensures Xor(And(x, m), And(x, n)) == (x & m) ^ (x & n)
  {
  }

  lemma AndXorRight(x: bv64, m: bv64, n: bv64)
    ensures And(x, Xor(m, n)) == x & (m ^ n)
  {
  }

  lemma AndXor(x: bv64, m: bv64, n: bv64)
    ensures Xor(And(x, m), And(x, n)) == And(x, Xor(m, n))
  {
    hide And, Xor;
    AndXorLeft(x, m, n);
    AndXorRight(x, m, n);
    AndXorBits(x, m, n);
  }

  lemma AndZero(x: bv64)
    ensures And(x, 0) == 0
  {
  }

  /** The bits of a word that its i-th byte occupies. */
  function Slot(i: nat): bv64 {
    match i {
      case 0 => 0xFF00_0000_0000_0000
      case 1 => 0xFF_0000_0000_0000
      case 2 => 0xFF00_0000_0000
      case 3 => 0xFF_0000_0000
      case 4 => 0xFF00_0000
      case 5 => 0xFF_0000
      case 6 => 0xFF00
      case _ => 0xFF
    }
  }

  function SlotsFrom(i: nat): bv64
    requires i <= 8
    decreases 8 - i
  {
    if i == 8 then 0 else Xor(Slot(i), SlotsFrom(i + 1))
  }

  lemma AllSlots(c: bv64)
    ensures And(c, SlotsFrom(0)) == c
  {
    assert SlotsFrom(0) == 0xFFFF_FFFF_FFFF_FFFF;
  }

  lemma SlotBits(c: bv64)
    ensures ((c >> 8) & 0xFF) << 8 == c & 0xFF00
    ensures ((c >> 16) & 0xFF) << 16 == c & 0xFF_0000
    ensures ((c >> 24) & 0xFF) << 24 == c & 0xFF00_0000
    ensures ((c >> 32) & 0xFF) << 32 == c & 0xFF_0000_0000
    ensures ((c >> 40) & 0xFF) << 40 == c & 0xFF00_0000_0000
    ensures ((c >> 48) & 0xFF) << 48 == c & 0xFF_0000_0000_0000
  {
  }

  lemma PlaceByteAt(c: bv64, i: nat)
    requires i < 8
    ensures Place(ByteAt(c, i), i) == And(c, Slot(i))
  {
    hide Low, Top, Widen, Load;
    SlotBits(c);
    match i {
      case 0 => LoadTop(c);
      case 1 => WidenLow(c >> 48);
      case 2 => WidenLow(c >> 40);
      case 3 => WidenLow(c >> 32);
      case 4 => WidenLow(c >> 24);
      case 5 => WidenLow(c >> 16);
      case 6 => WidenLow(c >> 8);
      case _ => WidenLow(c);
    }
  }

  lemma {:induction false} SumOfSlots(c: bv64, i: nat)
    requires i <= 8
    ensures REG.Sum(REG.Places(REG.Unpack(c))[i..]) == And(c, SlotsFrom(i))
    decreases 8 - i
  {
    hide And, Xor, Place, ByteAt, Slot;
    var ws := REG.Places(REG.Unpack(c));
    if i == 8 {
      AndZero(c);
    } else {
      ByteAtIs(c, i);
      PlaceIs(ByteAt(c, i), i);
      PlaceByteAt(c, i);
      assert ws[i..][1..] == ws[i + 1..];
      SumOfSlots(c, i + 1);
      XorIs(And(c, Slot(i)), And(c, SlotsFrom(i + 1)));
      AndXor(c, Slot(i), SlotsFrom(i + 1));
    }
  }

  lemma PackUnpack(c: bv64)
    ensures REG.Pack(REG.Unpack(c)) == c
  {
    SumOfSlots(c, 0);
    AllSlots(c);
  }

  function Or8(p0: bv8, p1: bv8, p2: bv8, p3: bv8, p4: bv8, p5: bv8, p6: bv8, p7: bv8): bv64 {
    (p0 as bv64) | ((p1 as bv64) << 8) | ((p2 as bv64) << 16) | ((p3 as bv64) << 24) |
    ((p4 as bv64) << 32) | ((p5 as bv64) << 40) | ((p6 as bv64) << 48) | ((p7 as bv64) << 56)
  }

  /** A little-endian load of eight bytes. */
  function LoadLe(p: seq<byte>): bv64
    requires |p| == 8
  {
    Or8(Bits(p[0]), Bits(p[1]), Bits(p[2]), Bits(p[3]), Bits(p[4]), Bits(p[5]), Bits(p[6]), Bits(p[7]))
  }

  function Bswap(v: bv64): bv64 {
    ((v & 0x0000_0000_0000_00FF) << 56) | ((v & 0x0000_0000_0000_FF00) << 40) |
    ((v & 0x0000_0000_00FF_0000) << 24) | ((v & 0x0000_0000_FF00_0000) << 8) |
    ((v & 0x0000_00FF_0000_0000) >> 8) | ((v & 0x0000_FF00_0000_0000) >> 24) |
    ((v & 0x00FF_0000_0000_0000) >> 40) | ((v & 0xFF00_0000_0000_0000) >> 56)
  }

  /** A big-endian load: the block as the code combines it with the register. */
  function LoadBe(p: seq<byte>): bv64
    requires |p| == 8
  {
    Bswap(LoadLe(p))
  }

  lemma BswapReverses(p0: bv8, p1: bv8, p2: bv8, p3: bv8, p4: bv8, p5: bv8, p6: bv8, p7: bv8)
    ensures Bswap(Or8(p0, p1, p2, p3, p4, p5, p6, p7)) == Or8(p7, p6, p5, p4, p3, p2, p1, p0)
  {
  }

  function Reversed(p: seq<byte>): seq<byte>
    requires |p| == 8
  {
    [p[7], p[6], p[5], p[4], p[3], p[2], p[1], p[0]]
  }

  lemma LoadBeIsReversed(p: seq<byte>)
    requires |p| == 8
    ensures LoadBe(p) == LoadLe(Reversed(p))
  {
    hide Bits, Bswap, Or8;
    BswapReverses(Bits(p[0]), Bits(p[1]), Bits(p[2]), Bits(p[3]), Bits(p[4]), Bits(p[5]), Bits(p[6]), Bits(p[7]));
  }

  lemma Or8Byte0(p0: bv8, p1: bv8, p2: bv8, p3: bv8, p4: bv8, p5: bv8, p6: bv8, p7: bv8)
    ensures (Or8(p0, p1, p2, p3, p4, p5, p6, p7) & 0xFF) as bv8 == p0
  {
  }

  lemma Or8Byte1(p0: bv8, p1: bv8, p2: bv8, p3: bv8, p4: bv8, p5: bv8, p6: bv8, p7: bv8)
    ensures ((Or8(p0, p1, p2, p3, p4, p5, p6, p7) >> 8) & 0xFF) as bv8 == p1
  {
  }

  lemma Or8Byte2(p0: bv8, p1: bv8, p2: bv8, p3: bv8, p4: bv8, p5: bv8, p6: bv8, p7: bv8)
    ensures ((Or8(p0, p1, p2, p3, p4, p5, p6, p7) >> 16) & 0xFF) as bv8 == p2
  {
  }

  lemma Or8Byte3(p0: bv8, p1: bv8, p2: bv8, p3: bv8, p4: bv8, p5: bv8, p6: bv8, p7: bv8)
    ensures ((Or8(p0, p1, p2, p3, p4, p5, p6, p7) >> 24) & 0xFF) as bv8 == p3
  {
  }

  lemma Or8Byte4(p0: bv8, p1: bv8, p2: bv8, p3: bv8, p4: bv8, p5: bv8, p6: bv8, p7: bv8)
    ensures ((Or8(p0, p1, p2, p3, p4, p5, p6, p7) >> 32) & 0xFF) as bv8 == p4
  {
  }

  lemma Or8Byte5(p0: bv8, p1: bv8, p2: bv8, p3: bv8, p4: bv8, p5: bv8, p6: bv8, p7: bv8)
    ensures ((Or8(p0, p1, p2, p3, p4, p5, p6, p7) >> 40) & 0xFF) as bv8 == p5
  {
  }

  lemma Or8Byte6(p0: bv8, p1: bv8, p2: bv8, p3: bv8, p4: bv8, p5: bv8, p6: bv8, p7: bv8)
    ensures ((Or8(p0, p1, p2, p3, p4, p5, p6, p7) >> 48) & 0xFF) as bv8 == p6
  {
  }

  lemma Or8Byte7(p0: bv8, p1: bv8, p2: bv8, p3: bv8, p4: bv8, p5: bv8, p6: bv8, p7: bv8)
    ensures (Or8(p0, p1, p2, p3, p4, p5, p6, p7) >> 56) as bv8 == p7
  {
  }

  lemma ByteOfLoadLeFirst(p: seq<byte>, i: nat)
    requires |p| == 8 && i < 4
    ensures ByteAt(LoadLe(p), 7 - i) == p[i]
  {
    hide Bits, FromBits, Or8;
    FromBitsOfBits(p[i]);
    var p0, p1, p2, p3 := Bits(p[0]), Bits(p[1]), Bits(p[2]), Bits(p[3]);
    var p4, p5, p6, p7 := Bits(p[4]), Bits(p[5]), Bits(p[6]), Bits(p[7]);
    match i {
      case 0 => Or8Byte0(p0, p1, p2, p3, p4, p5, p6, p7);
      case 1 => Or8Byte1(p0, p1, p2, p3, p4, p5, p6, p7);
      case 2 => Or8Byte2(p0, p1, p2, p3, p4, p5, p6, p7);
      case _ => Or8Byte3(p0, p1, p2, p3, p4, p5, p6, p7);
    }
  }

  lemma ByteOfLoadLeLast(p: seq<byte>, i: nat)
    requires |p| == 8 && 4 <= i < 8
    ensures ByteAt(LoadLe(p), 7 - i) == p[i]
  {
    hide Bits, FromBits, Or8;
    FromBitsOfBits(p[i]);
    var p0, p1, p2, p3 := Bits(p[0]), Bits(p[1]), Bits(p[2]), Bits(p[3]);
    var p4, p5, p6, p7 := Bits(p[4]), Bits(p[5]), Bits(p[6]), Bits(p[7]);
    match i {
      case 4 => Or8Byte4(p0, p1, p2, p3, p4, p5, p6, p7);
      case 5 => Or8Byte5(p0, p1, p2, p3, p4, p5, p6, p7);
      case 6 => Or8Byte6(p0, p1, p2, p3, p4, p5, p6, p7);
      case _ => Or8Byte7(p0, p1, p2, p3, p4, p5, p6, p7);
    }
  }

  lemma ByteOfLoadLe(p: seq<byte>, i: nat)
    requires |p| == 8 && i < 8
    ensures ByteAt(LoadLe(p), 7 - i) == p[i]
  {
    if i < 4 { ByteOfLoadLeFirst(p, i); } else { ByteOfLoadLeLast(p, i); }
  }

  lemma UnpackLoadBe(p: seq<byte>)
    requires |p| == 8
    ensures REG.Unpack(LoadBe(p)) == p
  {
    hide ByteAt, LoadBe, LoadLe;
    LoadBeIsReversed(p);
    forall i: nat | i < 8 ensures REG.Unpack(LoadBe(p))[i] == p[i] {
      ByteAtIs(LoadBe(p), i);
      ByteOfLoadLe(Reversed(p), 7 - i);
    }
  }

  lemma LoadBeIsPack(p: seq<byte>)
    requires |p| == 8
    ensures LoadBe(p) == REG.Pack(p) && REG.Unpack(REG.Pack(p)) == p
  {
    hide LoadBe;
    UnpackLoadBe(p);
    PackUnpack(LoadBe(p));
  }

  lemma IsPacked()
    ensures REG.Packed()
  {
    hide Place, ByteAt;
    forall b: byte, i: nat | i < 8 ensures REG.Steps(REG.place(b, i), 8 * i) == REG.place(b, 0) {
      PlaceIs(b, i);
      PlaceIs(b, 0);
      Delayed(b, i);
    }
    forall c ensures REG.Pack(REG.Unpack(c)) == c {
      PackUnpack(c);
    }
    forall bs: seq<byte> | |bs| == 8 ensures REG.Unpack(REG.Pack(bs)) == bs {
      LoadBeIsPack(bs);
    }
  }

  // ---- The byte table -------------------------------------------------------------------

  lemma SplitTop(x: bv64)
    ensures x == (x & 0xFF00_0000_0000_0000) ^ (x & 0x00FF_FFFF_FFFF_FFFF)
  {
  }

  lemma RestPart(c: bv64, w: bv8)
    ensures ((c ^ ((w as bv64) << 56)) & 0x00FF_FFFF_FFFF_FFFF) & 0xFF00_0000_0000_0000 == 0
    ensures ((c ^ ((w as bv64) << 56)) & 0x00FF_FFFF_FFFF_FFFF) << 8 == c << 8
  {
  }

  /** The part of a register that a byte lookup does not cover. */
  function Rest(x: bv64): bv64 {
    x & 0x00FF_FFFF_FFFF_FFFF
  }

  lemma TopAndRest(x: bv64)
    ensures x == Xor(Place(Top(x), 0), Rest(x))
  {
    hide Top, Load;
    LoadTop(x);
    SplitTop(x);
  }

  lemma RestShifts(c: bv64, b: byte)
    ensures REG.Steps(Rest(Xor(c, Place(b, 0))), 8) == c << 8
  {
    hide Bits;
    RestPart(c, Bits(b));
    ShiftOut(Rest(Xor(c, Place(b, 0))));
  }

  lemma LooksUp(t: seq<bv64>, c: bv64, b: byte, low: byte, high: bv64)
    requires REG.IsTable(t, 0)
    requires REG.xor(c, REG.load(b)) == REG.xor(REG.load(low), high)
    ensures REG.Absorb(c, b) == REG.xor(t[low], REG.Steps(high, 8))
  {
    IsLawful();
    REG.AbsorbLooksUp(t, c, b, low, high);
  }

  lemma PlaceFirst(b: byte)
    ensures Place(b, 0) == Load(b)
  {
  }

  /** The table index: the register's top byte combined with the message byte. */
  function Index(c: bv64, b: byte): byte {
    FromBits(((c >> 56) as bv8) ^ Bits(b))
  }

  /** The byte-at-a-time step of the table algorithm. */
  function LookupStep(t: seq<bv64>, c: bv64, b: byte): bv64
    requires |t| == 256
  {
    Xor(t[Index(c, b)], c << 8)
  }

  lemma IndexIsTop(c: bv64, b: byte)
    ensures Index(c, b) == Top(Xor(c, Load(b)))
  {
    hide Bits, FromBits;
    TopXor(c, Bits(b));
  }

  lemma TopXor(c: bv64, w: bv8)
    ensures ((c ^ ((w as bv64) << 56)) >> 56) as bv8 == ((c >> 56) as bv8) ^ w
  {
  }

  lemma AbsorbIsLookup(t: seq<bv64>, c: bv64, b: byte)
    requires REG.IsTable(t, 0)
    ensures REG.Absorb(c, b) == LookupStep(t, c, b)
  {
    hide Top, Rest, Load, Place, Xor, Index;
    PlaceFirst(b);
    IndexIsTop(c, b);
    var x := Xor(c, Place(b, 0));
    PlaceIs(b, 0);
    PlaceIs(Top(x), 0);
    XorIs(c, Place(b, 0));
    TopAndRest(x);
    XorIs(Place(Top(x), 0), Rest(x));
    LooksUp(t, c, b, Top(x), Rest(x));
    RestShifts(c, b);
    XorIs(t[Top(x)], c << 8);
  }

  /** Building the byte table with eight steps for each entry. */
  method MakeTable() returns (table: seq<bv64>)
    ensures REG.IsTable(table, 0)
  {
    var entries := new bv64[256];
    for i := 0 to 256
      invariant forall j :: 0 <= j < i ==> entries[j] == REG.Steps(Load(j), 8)
    {
      var crc := Load(i);
      for bit := 0 to 8
        modifies {}
        invariant REG.Steps(crc, 8 - bit) == REG.Steps(Load(i), 8)
      {
        ghost var before := crc;
        if crc & 0x8000_0000_0000_0000 != 0 {
          crc := (crc << 1) ^ 0x42F0_E1EB_A9EA_3693;
        } else {
          crc := crc << 1;
        }
        StepIs(before);
        assert REG.Steps(before, 8 - bit) == REG.Steps(REG.step(before), 8 - bit - 1);
      }
      entries[i] := crc;
    }
    table := entries[..];
    forall i | 0 <= i < 256 ensures table[i] == REG.Steps(REG.load(i), 8 * (0 + 1)) {
      PlaceIs(i, 0);
      PlaceFirst(i);
    }
  }

  /** The eight tables: entry i of table k is byte i followed by k zero bytes. */
  method MakeSlice8() returns (t: seq<seq<bv64>>)
    ensures REG.IsSlice8(t)
  {
    var first := MakeTable();
    t := [first];
    for k := 1 to 8
      invariant |t| == k && t[0] == first && forall j :: 0 <= j < k ==> REG.IsTable(t[j], j)
    {
      var next := NextSlice(first, t[k - 1], k);
      t := t + [next];
    }
  }

  /** The inner loop: every entry of the last table, followed by one more zero byte. */
  method NextSlice(first: seq<bv64>, last: seq<bv64>, k: nat) returns (next: seq<bv64>)
    requires k > 0 && REG.IsTable(first, 0) && REG.IsTable(last, k - 1)
    ensures REG.IsTable(next, k)
  {
    var entries := new bv64[256];
    for i := 0 to 256
      invariant forall j :: 0 <= j < i ==> entries[j] == REG.Steps(REG.load(j), 8 * (k + 1))
    {
      var previous := last[i];
      entries[i] := (previous << 8) ^ first[Top(previous)];
      NextTable(first, previous, REG.load(i), k);
    }
    next := entries[..];
  }

  lemma NextTable(first: seq<bv64>, previous: bv64, entry: bv64, k: nat)
    requires REG.IsTable(first, 0) && previous == REG.Steps(entry, 8 * k)
    ensures (previous << 8) ^ first[Top(previous)] == REG.Steps(entry, 8 * (k + 1))
  {
    REG.StepsAdd(entry, 8 * k, 8);
    StepsLookUp(first, previous);
  }

  lemma StepsLookUp(first: seq<bv64>, x: bv64)
    requires REG.IsTable(first, 0)
    ensures Xor(x << 8, first[Top(x)]) == REG.Steps(x, 8)
  {
    hide Xor, Load, Top, Place, Index;
    LoadZero();
    PlaceFirst(0);
    PlaceIs(0, 0);
    XorUnit(x);
    XorIs(x, 0);
    IndexIsTop(x, 0);
    AbsorbIsLookup(first, x, 0);
    XorCommutes(x << 8, first[Top(x)]);
  }

  lemma LoadZero()
    ensures Load(0) == 0
  {
  }

  // ---- Slicing by eight -------------------------------------------------------------------

  /** The update for one block of eight bytes, combined with the register. */
  function Block(t: seq<seq<bv64>>, x: bv64): bv64
    requires |t| == 8 && forall k :: 0 <= k < 8 ==> |t[k]| == 256
  {
    Xor(Xor(Xor(Xor(Xor(Xor(Xor(
      t[7][Top(x)], t[6][Low(x >> 48)]), t[5][Low(x >> 40)]), t[4][Low(x >> 32)]),
      t[3][Low(x >> 24)]), t[2][Low(x >> 16)]), t[1][Low(x >> 8)]), t[0][Low(x)])
  }

  lemma XorsAre(a: seq<bv64>)
    requires |a| == 8
    ensures
      REG.xor(REG.xor(REG.xor(REG.xor(REG.xor(REG.xor(REG.xor(a[0], a[1]), a[2]), a[3]), a[4]), a[5]), a[6]), a[7])
         == Xor(Xor(Xor(Xor(Xor(Xor(Xor(a[0], a[1]), a[2]), a[3]), a[4]), a[5]), a[6]), a[7])
  {
    hide Xor;
    forall x, y ensures REG.xor(x, y) == Xor(x, y) {
      XorIs(x, y);
    }
  }

  function BytesOf(x: bv64): (r: seq<byte>)
    ensures |r| == 8
  {
    [Top(x), Low(x >> 48), Low(x >> 40), Low(x >> 32), Low(x >> 24), Low(x >> 16), Low(x >> 8), Low(x)]
  }

  lemma UnpackIsBytesOf(x: bv64)
    ensures REG.Unpack(x) == BytesOf(x)
  {
    hide Low, Top;
    forall i: nat | i < 8 ensures REG.Unpack(x)[i] == ByteAt(x, i) {
      ByteAtIs(x, i);
    }
  }

  lemma BlockLooksUp(t: seq<seq<bv64>>, x: bv64)
    requires REG.IsSlice8(t)
    ensures forall k :: 0 <= k < 8 ==> |t[k]| == 256
    ensures Block(t, x) == REG.Lookup8(t, BytesOf(x))
  {
    hide Low, Top, Xor;
    assert forall k :: 0 <= k < 8 ==> REG.IsTable(t[k], k);
    var q := BytesOf(x);
    XorsAre([t[7][q[0]], t[6][q[1]], t[5][q[2]], t[4][q[3]], t[3][q[4]], t[2][q[5]], t[1][q[6]], t[0][q[7]]]);
  }

  lemma LookupIsSliced(t: seq<seq<bv64>>, q: seq<byte>)
    requires REG.IsSlice8(t) && |q| == 8
    ensures REG.Lookup8(t, q) == REG.Sliced(q)
  {
    IsLawful();
    REG.Lookup8IsSliced(t, q);
  }

  lemma FoldIsSliced(crc: bv64, p: seq<byte>)
    requires |p| == 8
    ensures REG.Fold(crc, p) == REG.Sliced(REG.Unpack(REG.xor(crc, REG.Pack(p))))
  {
    IsLawful();
    IsPacked();
    REG.FoldWord(crc, p);
  }

  /** Eight lookups advance the register over eight bytes. */
  lemma BlockIsFold(t: seq<seq<bv64>>, crc: bv64, p: seq<byte>)
    requires REG.IsSlice8(t) && |p| == 8
    ensures forall k :: 0 <= k < 8 ==> |t[k]| == 256
    ensures Block(t, Xor(crc, LoadBe(p))) == REG.Fold(crc, p)
  {
    hide Block, LoadBe, Xor, BytesOf;
    var x := Xor(crc, LoadBe(p));
    LoadBeIsPack(p);
    UnpackIsBytesOf(x);
    XorIs(crc, LoadBe(p));
    FoldIsSliced(crc, p);
    BlockLooksUp(t, x);
    LookupIsSliced(t, BytesOf(x));
  }

  lemma BlockAdvances(t: seq<seq<bv64>>, init: bv64, data: seq<byte>, p: nat)
    requires REG.IsSlice8(t) && p + 8 <= |data|
    ensures forall k :: 0 <= k < 8 ==> |t[k]| == 256
    ensures Block(t, Xor(REG.Fold(init, data[..p]), LoadBe(data[p..p + 8]))) == REG.Fold(init, data[..p + 8])
  {
    hide Block, Xor, LoadBe;
    BlockIsFold(t, REG.Fold(init, data[..p]), data[p..p + 8]);
    REG.FoldAppend(init, data[..p], data[p..p + 8]);
    assert data[..p + 8] == data[..p] + data[p..p + 8];
  }

  lemma ByteAdvances(t: seq<bv64>, init: bv64, data: seq<byte>, p: nat)
    requires REG.IsTable(t, 0) && p < |data|
    ensures LookupStep(t, REG.Fold(init, data[..p]), data[p]) == REG.Fold(init, data[..p + 1])
  {
    hide LookupStep;
    AbsorbIsLookup(t, REG.Fold(init, data[..p]), data[p]);
    REG.FoldAppend(init, data[..p], [data[p]]);
    REG.FoldOne(REG.Fold(init, data[..p]), data[p]);
    assert data[..p + 1] == data[..p] + [data[p]];
  }

  /** Slicing-by-8: eight bytes at a time, then the remainder byte by byte. */
  method Fast(data: seq<byte>, init: bv64, t: seq<seq<bv64>>) returns (result: bv64)
    requires REG.IsSlice8(t)
    ensures result == Crc(data, init)
  {
    hide Block, Xor, LoadLe, Bswap, LookupStep;
    var crc, p, len := init, 0, |data|;
    assert data[..0] == [] && REG.IsTable(t[0], 0);
    while len >= 8
      invariant 0 <= p && 0 <= len && p + len == |data|
      invariant crc == REG.Fold(init, data[..p])
    {
      var block := LoadLe(data[p..p + 8]);
      block := Bswap(block);
      BlockAdvances(t, init, data, p);
      var combined := Xor(crc, block);
      crc := Block(t, combined);
      p := p + 8;
      len := len - 8;
    }
    while len > 0
      invariant 0 <= p && 0 <= len && p + len == |data|
      invariant crc == REG.Fold(init, data[..p])
    {
      ByteAdvances(t[0], init, data, p);
      crc := LookupStep(t[0], crc, data[p]);
      p := p + 1;
      len := len - 1;
    }
    assert data[..p] == data;
    result := crc ^ 0xFFFF_FFFF_FFFF_FFFF;
  }

  /** The byte-at-a-time loop used at compile time. */
  method Bytewise(data: seq<byte>, init: bv64, table: seq<bv64>) returns (result: bv64)
    requires REG.IsTable(table, 0)
    ensures result == Crc(data, init)
  {
    var crc := init;
    for i := 0 to |data|
      invariant crc == REG.Fold(init, data[..i])
    {
      ByteAdvances(table, init, data, i);
      crc := LookupStep(table, crc, data[i]);
    }
    assert data[..|data|] == data;
    result := crc ^ 0xFFFF_FFFF_FFFF_FFFF;
  }

  method Checksum(data: seq<byte>, init: bv64) returns (result: bv64)
    ensures result == Crc(data, init)
  {
    var t := MakeSlice8();
    result := Fast(data, init, t);
  }

  // ---- A checksum as eight big-endian bytes -----------------------------------------------

  function WriteBe(c: bv64): (r: seq<byte>)
    ensures |r| == 8
  {
    BytesOf(c)
  }

  /** Shifting bytes in from the right, as the loop of the reader does. */
  function ShiftIn(p0: bv8, p1: bv8, p2: bv8, p3: bv8, p4: bv8, p5: bv8, p6: bv8, p7: bv8): bv64 {
    (((((((((((((((p0 as bv64) << 8) | (p1 as bv64)) << 8) | (p2 as bv64)) << 8) | (p3 as bv64)) << 8)
      | (p4 as bv64)) << 8) | (p5 as bv64)) << 8) | (p6 as bv64)) << 8) | (p7 as bv64))
  }

  function ReadBe(p: seq<byte>): bv64
    requires |p| == 8
  {
    ShiftIn(Bits(p[0]), Bits(p[1]), Bits(p[2]), Bits(p[3]), Bits(p[4]), Bits(p[5]), Bits(p[6]), Bits(p[7]))
  }

  lemma ShiftInReverses(p0: bv8, p1: bv8, p2: bv8, p3: bv8, p4: bv8, p5: bv8, p6: bv8, p7: bv8)
    ensures ShiftIn(p0, p1, p2, p3, p4, p5, p6, p7) == Or8(p7, p6, p5, p4, p3, p2, p1, p0)
  {
  }

  lemma ReadBeIsLoadBe(p: seq<byte>)
    requires |p| == 8
    ensures ReadBe(p) == LoadBe(p)
  {
    hide Bits, Or8, ShiftIn, Bswap;
    LoadBeIsReversed(p);
    ShiftInReverses(Bits(p[0]), Bits(p[1]), Bits(p[2]), Bits(p[3]), Bits(p[4]), Bits(p[5]), Bits(p[6]), Bits(p[7]));
  }

  lemma ReadWritten(c: bv64)
    ensures ReadBe(WriteBe(c)) == c
  {
    hide LoadBe, ReadBe, BytesOf;
    ReadBeIsLoadBe(BytesOf(c));
    UnpackIsBytesOf(c);
    LoadBeIsPack(REG.Unpack(c));
    PackUnpack(c);
  }

  lemma WriteRead(p: seq<byte>)
    requires |p| == 8
    ensures WriteBe(ReadBe(p)) == p
  {
    hide LoadBe, ReadBe, BytesOf;
    ReadBeIsLoadBe(p);
    UnpackLoadBe(p);
    UnpackIsBytesOf(LoadBe(p));
  }

  /** The bytes of a checksum on the wire, the most significant one first. */
  lemma WireBytes(c: bv64)
    ensures Widen(WriteBe(c)[0]) == (c >> 56) & 0xFF
    ensures Widen(WriteBe(c)[1]) == (c >> 48) & 0xFF
    ensures Widen(WriteBe(c)[2]) == (c >> 40) & 0xFF
    ensures Widen(WriteBe(c)[3]) == (c >> 32) & 0xFF
    ensures Widen(WriteBe(c)[4]) == (c >> 24) & 0xFF
    ensures Widen(WriteBe(c)[5]) == (c >> 16) & 0xFF
    ensures Widen(WriteBe(c)[6]) == (c >> 8) & 0xFF
    ensures Widen(WriteBe(c)[7]) == c & 0xFF
  {
    BitsOfFromBits(((c >> 56) & 0xFF) as bv8);
    BitsOfFromBits(((c >> 48) & 0xFF) as bv8);
    BitsOfFromBits(((c >> 40) & 0xFF) as bv8);
    BitsOfFromBits(((c >> 32) & 0xFF) as bv8);
    BitsOfFromBits(((c >> 24) & 0xFF) as bv8);
    BitsOfFromBits(((c >> 16) & 0xFF) as bv8);
    BitsOfFromBits(((c >> 8) & 0xFF) as bv8);
    BitsOfFromBits((c & 0xFF) as bv8);
  }

  // ---- Error detection ----------------------------------------------------------------------

  lemma FinalInverts(c: bv64)
    ensures Final(c) == Xor(c, 0xFFFF_FFFF_FFFF_FFFF)
  {
  }

  lemma FinalInjective(a: bv64, b: bv64)
    requires Final(a) == Final(b)
    ensures a == b
  {
    assert (a ^ 0xFFFF_FFFF_FFFF_FFFF) ^ 0xFFFF_FFFF_FFFF_FFFF == a;
    assert (b ^ 0xFFFF_FFFF_FFFF_FFFF) ^ 0xFFFF_FFFF_FFFF_FFFF == b;
  }

  lemma FoldsDiffer(init: bv64, pre: seq<byte>, u: seq<byte>, v: seq<byte>, post: seq<byte>)
    requires |u| == |v| <= 8
    ensures REG.Fold(init, pre + u + post) == REG.Fold(init, pre + v + post) <==> u == v
  {
    IsLawful();
    IsPacked();
    IsInjective();
    REG.BurstDetected(init, pre, u, v, post);
  }

  /** Two messages that differ only inside eight consecutive bytes have different checksums. */
  lemma BurstDetected(pre: seq<byte>, u: seq<byte>, v: seq<byte>, post: seq<byte>, init: bv64)
    requires |u| == |v| <= 8
    ensures Crc(pre + u + post, init) == Crc(pre + v + post, init) <==> u == v
  {
    hide Final;
    FoldsDiffer(init, pre, u, v, post);
    if Crc(pre + u + post, init) == Crc(pre + v + post, init) {
      FinalInjective(REG.Fold(init, pre + u + post), REG.Fold(init, pre + v + post));
    }
  }

  /** Damage confined to eight consecutive bytes changes the checksum. */
  lemma DamageDetected(p: seq<byte>, q: seq<byte>, lo: nat, n: nat, init: bv64)
    requires DifferInside(p, q, lo, n) && n <= 8
    ensures Crc(p, init) == Crc(q, init) <==> p == q
  {
    hide Crc;
    SplitWindow(p, q, lo, n);
    BurstDetected(p[..lo], p[lo..lo + n], q[lo..lo + n], p[lo + n..], init);
  }

  lemma WriteBeInjective(a: bv64, b: bv64)
    requires WriteBe(a) == WriteBe(b)
    ensures a == b
  {
    hide WriteBe, ReadBe;
    ReadWritten(a);
    ReadWritten(b);
  }

  // ---- Values of the checksum ---------------------------------------------------------------

  const ONES: bv64 := 0xFFFF_FFFF_FFFF_FFFF

  function FourSteps(c: bv64): bv64 {
    Step(Step(Step(Step(c))))
  }

  lemma FourStepsAre(c: bv64)
    ensures REG.FourSteps(c) == FourSteps(c)
  {
    hide Step;
    StepIs(c);
    StepIs(Step(c));
    StepIs(Step(Step(c)));
    StepIs(Step(Step(Step(c))));
  }

  predicate Reaches(front: seq<byte>, c: bv64) {
    REG.Fold(ONES, front) == c
  }

  /** What a byte does to the register. */
  predicate Advances(c: bv64, b: byte, after: bv64) {
    after == FourSteps(FourSteps(Xor(c, Load(b))))
  }

  lemma Digit1()
    ensures Advances(ONES, 0x31, 0x8DB4_7132_29B2_F2A5)
  {
    assert Load(0x31) == 0x3100_0000_0000_0000;
  }

  lemma Digit2()
    ensures Advances(0x8DB4_7132_29B2_F2A5, 0x32, 0xF488_D61A_961B_3128)
  {
    assert Load(0x32) == 0x3200_0000_0000_0000;
  }

  lemma Digit3()
    ensures Advances(0xF488_D61A_961B_3128, 0x33, 0x2A0B_B93A_7813_CA88)
  {
    assert Load(0x33) == 0x3300_0000_0000_0000;
  }

  lemma Digit4()
    ensures Advances(0x2A0B_B93A_7813_CA88, 0x34, 0x3330_2B9F_C238_55A8)
  {
    assert Load(0x34) == 0x3400_0000_0000_0000;
  }

  lemma Digit5()
    ensures Advances(0x3330_2B9F_C238_55A8, 0x35, 0xFCF9_3A50_65C3_29F9)
  {
    assert Load(0x35) == 0x3500_0000_0000_0000;
  }

  lemma Digit6()
    ensures Advances(0xFCF9_3A50_65C3_29F9, 0x36, 0xC242_B8ED_1B26_187A)
  {
    assert Load(0x36) == 0x3600_0000_0000_0000;
  }

  lemma Digit7()
    ensures Advances(0xC242_B8ED_1B26_187A, 0x37, 0xCFC3_0460_A7CC_7B9F)
  {
    assert Load(0x37) == 0x3700_0000_0000_0000;
  }

  lemma Digit8()
    ensures Advances(0xCFC3_0460_A7CC_7B9F, 0x38, 0xCB9E_4A0B_1E7B_F3B9)
  {
    assert Load(0x38) == 0x3800_0000_0000_0000;
  }

  lemma Digit9()
    ensures Advances(0xCB9E_4A0B_1E7B_F3B9, 0x39, 0x9D13_A61C_0E5B_0FF5)
  {
    assert Load(0x39) == 0x3900_0000_0000_0000;
  }

  lemma NextByte(front: seq<byte>, c: bv64, b: byte, after: bv64)
    requires Reaches(front, c) && Advances(c, b, after)
    ensures Reaches(front + [b], after)
  {
    hide FourSteps, Load, Xor;
    var x := Xor(c, Load(b));
    PlaceIs(b, 0);
    PlaceFirst(b);
    XorIs(c, Load(b));
    FourStepsAre(x);
    FourStepsAre(FourSteps(x));
    REG.OneMoreByte(ONES, front, b, x, after);
  }

  lemma FirstDigits()
    ensures Reaches([0x31, 0x32, 0x33, 0x34], 0x3330_2B9F_C238_55A8)
  {
    hide Advances, Reaches;
    Digit1();
    Digit2();
    Digit3();
    Digit4();
    NothingReaches();
    var m: seq<byte> := [];
    NextByte(m, ONES, 0x31, 0x8DB4_7132_29B2_F2A5);
    m := m + [0x31];
    NextByte(m, 0x8DB4_7132_29B2_F2A5, 0x32, 0xF488_D61A_961B_3128);
    m := m + [0x32];
    NextByte(m, 0xF488_D61A_961B_3128, 0x33, 0x2A0B_B93A_7813_CA88);
    m := m + [0x33];
    NextByte(m, 0x2A0B_B93A_7813_CA88, 0x34, 0x3330_2B9F_C238_55A8);
    m := m + [0x34];
    assert m == [0x31, 0x32, 0x33, 0x34];
  }

  /** The published check value: the checksum of the nine digits "123456789". */
  lemma CheckValue()
    ensures Crc([0x31, 0x32, 0x33, 0x34, 0x35, 0x36, 0x37, 0x38, 0x39], ONES) == 0x62EC_59E3_F1A4_F00A
  {
    hide Advances, Reaches, Crc, Final;
    FirstDigits();
    Digit5();
    Digit6();
    Digit7();
    Digit8();
    Digit9();
    var m: seq<byte> := [0x31, 0x32, 0x33, 0x34];
    NextByte(m, 0x3330_2B9F_C238_55A8, 0x35, 0xFCF9_3A50_65C3_29F9);
    m := m + [0x35];
    NextByte(m, 0xFCF9_3A50_65C3_29F9, 0x36, 0xC242_B8ED_1B26_187A);
    m := m + [0x36];
    NextByte(m, 0xC242_B8ED_1B26_187A, 0x37, 0xCFC3_0460_A7CC_7B9F);
    m := m + [0x37];
    NextByte(m, 0xCFC3_0460_A7CC_7B9F, 0x38, 0xCB9E_4A0B_1E7B_F3B9);
    m := m + [0x38];
    NextByte(m, 0xCB9E_4A0B_1E7B_F3B9, 0x39, 0x9D13_A61C_0E5B_0FF5);
    m := m + [0x39];
    assert m == [0x31, 0x32, 0x33, 0x34, 0x35, 0x36, 0x37, 0x38, 0x39];
    ReachedCrc(m, 0x9D13_A61C_0E5B_0FF5);
    FinalOf9();
  }

  lemma NothingReaches()
    ensures Reaches([], ONES)
  {
  }

  lemma ReachedCrc(data: seq<byte>, c: bv64)
    requires Reaches(data, c)
    ensures Crc(data, ONES) == Final(c)
  {
  }

  lemma FinalOf9()
    ensures Final(0x9D13_A61C_0E5B_0FF5) == 0x62EC_59E3_F1A4_F00A
  {
  }

  lemma NextEight(c: bv64, after: bv64, n: nat)
    requires after == FourSteps(FourSteps(c))
    ensures REG.Steps(c, 8 + n) == REG.Steps(after, n)
  {
    hide FourSteps;
    FourStepsAre(c);
    FourStepsAre(FourSteps(c));
    REG.EightSteps(c);
    REG.StepsAdd(c, 8, n);
  }

  lemma StepsOfOnes()
    ensures REG.Steps(ONES, 64) == 0xFCAC_BEBD_5931_A992
  {
    NextEight(0xFFFF_FFFF_FFFF_FFFF, 0x6503_19D9_317A_4A07, 56);
    NextEight(0x6503_19D9_317A_4A07, 0x1EA5_AD75_164D_F7BD, 48);
    NextEight(0x1EA5_AD75_164D_F7BD, 0x9D24_64F1_9C05_60A8, 40);
    NextEight(0x9D24_64F1_9C05_60A8, 0x2D06_2787_539E_5AD0, 32);
    NextEight(0x2D06_2787_539E_5AD0, 0x53F8_3D88_04B4_D82C, 24);
    NextEight(0x53F8_3D88_04B4_D82C, 0x8314_D0D2_346B_D375, 16);
    NextEight(0x8314_D0D2_346B_D375, 0x253B_15C8_ECDF_5A78, 8);
    NextEight(0x253B_15C8_ECDF_5A78, 0xFCAC_BEBD_5931_A992, 0);
  }

  lemma SumsToOnes(c: bv64, word: bv64)
    ensures Xor(c, word) == ONES <==> word == Xor(c, 0xFFFF_FFFF_FFFF_FFFF)
  {
    SumIsOnes(c, word);
    if Xor(c, word) == ONES {
      assert Xor(c, Xor(c, word)) == word;
    }
  }

  lemma SumIsOnes(c: bv64, word: bv64)
    ensures word == Xor(c, 0xFFFF_FFFF_FFFF_FFFF) ==> Xor(c, word) == ONES
  {
  }

  /**
  The residue: a message that is followed by eight bytes, read as a word with the most significant one first,
  has this one checksum exactly if that word is the checksum of the message.
  */
  lemma ResidueExactly(data: seq<byte>, tail: seq<byte>, init: bv64)
    requires |tail| == 8
    ensures Crc(data + tail, init) == 0x0353_4142_A6CE_566D <==> ReadBe(tail) == Crc(data, init)
  {
    hide Xor, Final, ReadBe, LoadBe;
    IsLawful();
    IsPacked();
    IsInjective();
    var c, word := REG.Fold(init, data), ReadBe(tail);
    ReadBeIsLoadBe(tail);
    UnpackLoadBe(tail);
    REG.EndingsAgree(init, data, word, ONES);
    StepsOfOnes();
    XorIs(c, word);
    SumsToOnes(c, word);
    FinalInverts(c);
    FinalInverts(REG.Fold(init, data + tail));
    SumsToConstant(REG.Fold(init, data + tail));
  }

  lemma SumsToConstant(c: bv64)
    ensures Xor(c, 0xFFFF_FFFF_FFFF_FFFF) == 0x0353_4142_A6CE_566D <==> c == 0xFCAC_BEBD_5931_A992
  {
  }

  // ---- Bit by bit ---------------------------------------------------------------------------------

  /** The bit that falls out with the next step, and the bit at the low end. */
  function Falls(x: bv64): bool {
    x & 0x8000_0000_0000_0000 != 0
  }

  function Last(x: bv64): bool {
    x & 1 != 0
  }

  const SHIFT: Shift<bv64> := Shift(Falls, Out, Last, 1, 0x8000_0000_0000_0000, 64)

  lemma FallsXor(a: bv64, b: bv64)
    ensures Falls(Xor(a, b)) == (Falls(a) != Falls(b))
  {
  }

  lemma LastXor(a: bv64, b: bv64)
    ensures Last(Xor(a, b)) == (Last(a) != Last(b))
  {
  }

  lemma LastShifted(a: bv64)
    ensures !Last(Out(a))
  {
  }

  lemma StepOfTop()
    ensures Step(0x8000_0000_0000_0000) == 0x42F0_E1EB_A9EA_3693
  {
  }

  lemma StepFalls(x: bv64)
    requires Falls(x)
    ensures Step(x) == Xor(0x42F0_E1EB_A9EA_3693, Out(x))
  {
  }

  lemma StepQuiet(x: bv64)
    requires !Falls(x)
    ensures Step(x) == Xor(0, Out(x))
  {
  }

  lemma StepShifts(x: bv64)
    ensures Step(x) == Xor(if Falls(x) then Step(0x8000_0000_0000_0000) else 0, Out(x))
  {
    hide Step, Falls, Xor, Out;
    StepOfTop();
    if Falls(x) {
      StepFalls(x);
    } else {
      StepQuiet(x);
    }
  }

  lemma {:induction false} ShiftedIs(x: bv64, n: nat)
    ensures REG.Shifted(SHIFT, x, n) == ShiftLeft(x, n)
    decreases n
  {
    hide Out;
    if n > 0 {
      ShiftedIs(Out(x), n - 1);
    }
  }

  lemma LoadIs(b: byte)
    ensures REG.load(b) == Load(b)
  {
    hide Load, Place;
    PlaceIs(b, 0);
    PlaceFirst(b);
  }

  lemma WordShiftsOut(w: bv8)
    ensures ShiftLeft((w as bv64) << 56, 8) == 0
  {
  }

  lemma LoadShiftsOut(b: byte)
    ensures ShiftLeft(Load(b), 8) == 0
  {
    hide Bits, ShiftLeft;
    WordShiftsOut(Bits(b));
  }

  lemma {:induction false} QuietIs(x: bv64, n: nat)
    requires Quiet(x, n)
    ensures REG.Quiet(SHIFT, x, n)
    decreases n
  {
    if n > 0 {
      QuietIs(Out(x), n - 1);
    }
  }

  lemma LowQuiet()
    ensures Quiet(1, 63)
  {
    assert Quiet(0x100000000000000, 7);
    assert Quiet(0x1000000000000, 15);
    assert Quiet(0x10000000000, 23);
    assert Quiet(0x100000000, 31);
    assert Quiet(0x1000000, 39);
    assert Quiet(0x10000, 47);
    assert Quiet(0x100, 55);
    assert Quiet(0x1, 63);
  }

  lemma LowShifted()
    ensures ShiftLeft(1, 63) == 0x8000_0000_0000_0000
  {
    assert ShiftLeft(0x100000000000000, 7) == 0x8000_0000_0000_0000;
    assert ShiftLeft(0x1000000000000, 15) == 0x8000_0000_0000_0000;
    assert ShiftLeft(0x10000000000, 23) == 0x8000_0000_0000_0000;
    assert ShiftLeft(0x100000000, 31) == 0x8000_0000_0000_0000;
    assert ShiftLeft(0x1000000, 39) == 0x8000_0000_0000_0000;
    assert ShiftLeft(0x10000, 47) == 0x8000_0000_0000_0000;
    assert ShiftLeft(0x100, 55) == 0x8000_0000_0000_0000;
    assert ShiftLeft(0x1, 63) == 0x8000_0000_0000_0000;
  }

  lemma LowReachesTop()
    ensures REG.Steps(1, 64) == REG.step(0x8000_0000_0000_0000)
  {
    hide Quiet, ShiftLeft, Step;
    LowQuiet();
    LowShifted();
    QuietSteps(1, 63);
    REG.StepsAdd(1, 63, 1);
  }

  lemma IsShift()
    ensures REG.Shifts(SHIFT)
  {
    hide Xor, Step, Falls, Out, Load, ShiftLeft;
    forall x ensures REG.StepShifts(SHIFT, x) {
      StepIs(x);
      StepIs(0x8000_0000_0000_0000);
      StepShifts(x);
      XorIs(if Falls(x) then Step(0x8000_0000_0000_0000) else 0, Out(x));
    }
    forall b: byte ensures REG.Shifted(SHIFT, REG.load(b), 8) == 0 {
      LoadIs(b);
      ShiftedIs(Load(b), 8);
      LoadShiftsOut(b);
    }
    LowReachesTop();
  }

  lemma LowStaysQuiet()
    ensures REG.Quiet(SHIFT, 1, 63)
  {
    hide Falls, Last, Out, Quiet;
    LowQuiet();
    QuietIs(1, 63);
  }

  lemma Ends()
    ensures Last(1) && !Falls(0) && !Last(0)
  {
  }

  lemma IsDigits()
    ensures REG.Digits(SHIFT)
  {
    hide Falls, Last, Xor, Out, Quiet;
    Ends();
    LowStaysQuiet();
    forall a, b ensures SHIFT.falls(REG.xor(a, b)) == (SHIFT.falls(a) != SHIFT.falls(b)) {
      XorIs(a, b);
      FallsXor(a, b);
    }
    forall a, b ensures SHIFT.last(REG.xor(a, b)) == (SHIFT.last(a) != SHIFT.last(b)) {
      XorIs(a, b);
      LastXor(a, b);
    }
    forall a ensures !SHIFT.last(SHIFT.out(a)) {
      LastShifted(a);
    }
  }

  lemma FoldIsRemainder(c: bv64, data: seq<byte>)
    ensures REG.Fold(c, data) == REG.xor(REG.Divide(c, 1, REG.NoBits(8 * |data|)),
                                         REG.Divide(0, 1, REG.Message(SHIFT, data) + REG.NoBits(64)))
  {
    IsLawful();
    IsShift();
    REG.FoldIsRemainder(SHIFT, c, data);
  }

  /**
  The checksum is the inverted remainder, by long division, of init * x^|m| + m * x^64, where m is the
  message with the most significant bit of each byte first.
  */
  lemma CrcIsRemainder(data: seq<byte>, init: bv64)
    ensures Crc(data, init)
         == Xor(Xor(REG.Divide(init, 1, REG.NoBits(8 * |data|)),
                          REG.Divide(0, 1, REG.Message(SHIFT, data) + REG.NoBits(64))), 0xFFFF_FFFF_FFFF_FFFF)
  {
    hide Final, Xor;
    FoldIsRemainder(init, data);
    FinalInverts(REG.Fold(init, data));
    XorIs(REG.Divide(init, 1, REG.NoBits(8 * |data|)),
          REG.Divide(0, 1, REG.Message(SHIFT, data) + REG.NoBits(64)));
  }

  lemma BurstFoldsDiffer(p: seq<byte>, q: seq<byte>, lo: nat, k: nat, init: bv64)
    requires k <= 64 && REG.BitsDifferInside(REG.Message(SHIFT, p), REG.Message(SHIFT, q), lo, k)
    ensures REG.Fold(init, p) == REG.Fold(init, q) <==> p == q
  {
    IsLawful();
    IsPacked();
    IsInjective();
    IsShift();
    IsDigits();
    REG.MessageBurstDetected(SHIFT, init, p, q, lo, k);
  }

  /**
  An error burst of at most 64 consecutive bits, wherever it starts and whatever bytes it touches, changes
  the checksum.
  */
  lemma BitBurstDetected(p: seq<byte>, q: seq<byte>, lo: nat, k: nat, init: bv64)
    requires k <= 64 && REG.BitsDifferInside(REG.Message(SHIFT, p), REG.Message(SHIFT, q), lo, k)
    ensures Crc(p, init) == Crc(q, init) <==> p == q
  {
    hide Final;
    BurstFoldsDiffer(p, q, lo, k, init);
    if Crc(p, init) == Crc(q, init) {
      FinalInjective(REG.Fold(init, p), REG.Fold(init, q));
    }
  }
}
