/** CRC-8/SAE-J1850: the bitwise definition and the byte table. */
module Crc8 {
  import opened Bytes
  import opened LinearRegister

  /** Shift one bit out to the left; subtract the polynomial if it was set. */
  function Step(c: bv8): bv8 {
    if c & 0x80 != 0 then (c << 1) ^ 0x1D else c << 1
  }

  function Xor(a: bv8, b: bv8): bv8 {
    a ^ b
  }

  function Place(b: byte, i: nat): bv8 {
    Bits(b)
  }

  function ByteAt(x: bv8, i: nat): byte {
    FromBits(x)
  }

  const REG: Register<bv8> := Register(0, Xor, Step, 1, Place, ByteAt)

  function Final(c: bv8): bv8 {
    c ^ 0xFF
  }

  /** The checksum by its bitwise definition. */
  function Crc(data: seq<byte>, init: bv8): bv8 {
    Final(REG.Fold(init, data))
  }

  // ---- The register is lawful ---------------------------------------------------------

  lemma XorIs(a: bv8, b: bv8)
    ensures REG.xor(a, b) == Xor(a, b)
  {
  }

  lemma StepIs(a: bv8)
    ensures REG.step(a) == Step(a)
  {
  }

  lemma PlaceIs(b: byte, i: nat)
    ensures REG.place(b, i) == Bits(b)
  {
  }

  lemma XorShift(a: bv8, b: bv8)
    ensures (a ^ b) << 1 == (a << 1) ^ (b << 1)
  {
  }

  lemma XorTopBit(a: bv8, b: bv8)
    ensures (a ^ b) & 0x80 == (a & 0x80) ^ (b & 0x80)
  {
  }

  lemma TopBitCases(a: bv8)
    ensures a & 0x80 == 0 || a & 0x80 == 0x80
  {
  }

  lemma StepLinear11(a: bv8, b: bv8)
    requires a & 0x80 == 0x80 && b & 0x80 == 0x80
    ensures Step(a ^ b) == Step(a) ^ Step(b)
  {
    XorShift(a, b);
    XorTopBit(a, b);
  }

  lemma StepLinear10(a: bv8, b: bv8)
    requires a & 0x80 == 0x80 && b & 0x80 == 0
    ensures Step(a ^ b) == Step(a) ^ Step(b)
  {
    XorShift(a, b);
    XorTopBit(a, b);
  }

  lemma StepLinear01(a: bv8, b: bv8)
    requires a & 0x80 == 0 && b & 0x80 == 0x80
    ensures Step(a ^ b) == Step(a) ^ Step(b)
  {
    XorShift(a, b);
    XorTopBit(a, b);
  }

  lemma StepLinear00(a: bv8, b: bv8)
    requires a & 0x80 == 0 && b & 0x80 == 0
    ensures Step(a ^ b) == Step(a) ^ Step(b)
  {
    XorShift(a, b);
    XorTopBit(a, b);
  }

  lemma StepLinear(a: bv8, b: bv8)
    ensures Step(Xor(a, b)) == Xor(Step(a), Step(b))
  {
    TopBitCases(a);
    TopBitCases(b);
    if a & 0x80 == 0x80 {
      if b & 0x80 == 0x80 { StepLinear11(a, b); } else { StepLinear10(a, b); }
    } else {
      if b & 0x80 == 0x80 { StepLinear01(a, b); } else { StepLinear00(a, b); }
    }
  }

  lemma StepInjective(a: bv8, b: bv8)
    requires Step(a) == Step(b)
    ensures a == b
  {
  }

  lemma XorBits(a: bv8, b: bv8)
    ensures Xor(a, b) == a ^ b
  {
  }

  lemma XorArguments(a: bv8, b: bv8, c: bv8, d: bv8)
    ensures Xor(Xor(a, b), Xor(c, d)) == Xor(a ^ b, c ^ d)
  {
    hide Xor;
    XorBits(a, b);
    XorBits(c, d);
  }

  lemma ExchangeBits(a: bv8, b: bv8, c: bv8, d: bv8)
    ensures (a ^ b) ^ (c ^ d) == (a ^ c) ^ (b ^ d)
  {
  }

  lemma ExchangeArguments(a: bv8, b: bv8, c: bv8, d: bv8)
    ensures Xor(a ^ b, c ^ d) == Xor(a ^ c, b ^ d)
  {
    ExchangeBits(a, b, c, d);
  }

  lemma XorExchange(a: bv8, b: bv8, c: bv8, d: bv8)
    ensures Xor(Xor(a, b), Xor(c, d)) == Xor(Xor(a, c), Xor(b, d))
  {
    hide Xor;
    XorArguments(a, b, c, d);
    XorArguments(a, c, b, d);
    ExchangeArguments(a, b, c, d);
  }

  lemma XorUnit(a: bv8)
    ensures Xor(a, 0) == a && Xor(0, a) == a
  {
  }

  lemma XorCancels(a: bv8, b: bv8, c: bv8)
    requires Xor(a, c) == Xor(b, c) || Xor(c, a) == Xor(c, b)
    ensures a == b
  {
  }

  lemma Sum4Exchange(a: bv8, b: bv8, c: bv8, d: bv8)
    ensures REG.Sum4(a, b, c, d) == REG.Sum4(a, c, b, d)
  {
    hide Xor;
    XorIs(a, b);
    XorIs(c, d);
    XorIs(Xor(a, b), Xor(c, d));
    XorIs(a, c);
    XorIs(b, d);
    XorIs(Xor(a, c), Xor(b, d));
    XorExchange(a, b, c, d);
  }

  lemma StepDistributes(a: bv8, b: bv8)
    ensures REG.step(REG.xor(a, b)) == REG.xor(REG.step(a), REG.step(b))
  {
    hide Xor, Step;
    XorIs(a, b);
    StepIs(a);
    StepIs(b);
    StepIs(Xor(a, b));
    XorIs(Step(a), Step(b));
    StepLinear(a, b);
  }

  lemma StepZero()
    ensures Step(0) == 0
  {
  }

  lemma IsLawful()
    ensures REG.Lawful()
  {
    hide Xor, Step;
    forall a, b, c, d ensures REG.Sum4(a, b, c, d) == REG.Sum4(a, c, b, d) {
      Sum4Exchange(a, b, c, d);
    }
    forall a ensures REG.xor(a, REG.zero) == a && REG.xor(REG.zero, a) == a {
      XorIs(a, 0);
      XorIs(0, a);
      XorUnit(a);
    }
    forall a, b ensures REG.step(REG.xor(a, b)) == REG.xor(REG.step(a), REG.step(b)) {
      StepDistributes(a, b);
    }
    StepZero();
    StepIs(0);
  }

  lemma IsInjective()
    ensures REG.Injective()
  {
    hide Xor, Step;
    forall a, b | REG.step(a) == REG.step(b) ensures a == b {
      StepIs(a);
      StepIs(b);
      StepInjective(a, b);
    }
    forall a, b, c | REG.xor(a, c) == REG.xor(b, c) ensures a == b {
      XorIs(a, c);
      XorIs(b, c);
      XorCancels(a, b, c);
    }
    forall a, b, c | REG.xor(c, a) == REG.xor(c, b) ensures a == b {
      XorIs(c, a);
      XorIs(c, b);
      XorCancels(a, b, c);
    }
  }

  lemma PackOne(b: byte)
    ensures REG.Pack([b]) == Bits(b)
  {
    hide Xor, Bits;
    PlaceIs(b, 0);
    XorIs(Bits(b), 0);
    XorUnit(Bits(b));
    assert REG.Places([b]) == [Bits(b)];
    assert REG.Sum([Bits(b)][1..]) == 0;
    assert REG.Sum([Bits(b)]) == REG.xor(Bits(b), 0);
  }

  lemma UnpackOne(c: bv8)
    ensures REG.Unpack(c) == [FromBits(c)]
  {
    hide FromBits;
    assert REG.byteAt(c, 0) == ByteAt(c, 0);
  }

  lemma IsPacked()
    ensures REG.Packed()
  {
    hide Bits, FromBits;
    forall b: byte, i: nat | i < 1 ensures REG.Steps(REG.place(b, i), 8 * i) == REG.place(b, 0) {
    }
    forall c ensures REG.Pack(REG.Unpack(c)) == c {
      UnpackOne(c);
      PackOne(FromBits(c));
      BitsOfFromBits(c);
    }
    forall bs: seq<byte> | |bs| == 1 ensures REG.Unpack(REG.Pack(bs)) == bs {
      assert bs == [bs[0]];
      PackOne(bs[0]);
      UnpackOne(Bits(bs[0]));
      FromBitsOfBits(bs[0]);
    }
  }

  // ---- The byte table -------------------------------------------------------------------

  function LookupStep(t: seq<bv8>, c: bv8, b: byte): bv8
    requires |t| == 256
  {
    t[FromBits(Xor(c, Bits(b)))]
  }

  lemma AbsorbIsLookup(t: seq<bv8>, c: bv8, b: byte)
    requires REG.IsTable(t, 0)
    ensures REG.Absorb(c, b) == LookupStep(t, c, b)
  {
    hide Bits, FromBits, Xor;
    var i := FromBits(Xor(c, Bits(b)));
    PlaceIs(b, 0);
    PlaceIs(i, 0);
    XorIs(c, Bits(b));
    BitsOfFromBits(Xor(c, Bits(b)));
    assert t[i] == REG.Steps(REG.load(i), 8 * (0 + 1));
  }

  /** Building the byte table with eight steps for each entry. */
  method MakeTable() returns (table: seq<bv8>)
    ensures REG.IsTable(table, 0)
  {
    var entries := new bv8[256];
    for i := 0 to 256
      invariant forall j :: 0 <= j < i ==> entries[j] == REG.Steps(Bits(j), 8)
    {
      var crc := Bits(i);
      for bit := 0 to 8
        modifies {}
        invariant REG.Steps(crc, 8 - bit) == REG.Steps(Bits(i), 8)
      {
        ghost var before := crc;
        if crc & 0x80 != 0 {
          crc := (crc << 1) ^ 0x1D;
        } else {
          crc := crc << 1;
        }
        StepIs(before);
        assert REG.Steps(before, 8 - bit) == REG.Steps(REG.step(before), 8 - bit - 1);
      }
      entries[i] := crc;
    }
    table := entries[..];
    forall i | 0 <= i < 256 ensures table[i] == REG.Steps(REG.load(i), 8 * (0 + 1)) {
      PlaceIs(i, 0);
    }
  }

  /** The table-driven checksum. */
  method SaeJ1850(data: seq<byte>, init: bv8, table: seq<bv8>) returns (result: bv8)
    requires REG.IsTable(table, 0)
    ensures result == Crc(data, init)
  {
    hide LookupStep;
    var crc := init;
    for i := 0 to |data|
      invariant crc == REG.Fold(init, data[..i])
    {
      AbsorbIsLookup(table, crc, data[i]);
      REG.FoldAppend(init, data[..i], [data[i]]);
      REG.FoldOne(crc, data[i]);
      assert data[..i + 1] == data[..i] + [data[i]];
      crc := LookupStep(table, crc, data[i]);
    }
    assert data[..|data|] == data;
    result := crc ^ 0xFF;
  }

  // ---- Chaining and error detection ----------------------------------------------------------

  lemma FinalTwice(c: bv8)
    ensures Final(c) ^ 0xFF == c
  {
  }

  /** A checksum can be continued: undo the final inversion and feed the rest. */
  lemma Chains(xs: seq<byte>, ys: seq<byte>, init: bv8)
    ensures Crc(ys, Crc(xs, init) ^ 0xFF) == Crc(xs + ys, init)
  {
    hide Final;
    REG.FoldAppend(init, xs, ys);
    FinalTwice(REG.Fold(init, xs));
  }

  lemma FoldsDiffer(init: bv8, pre: seq<byte>, u: byte, v: byte, post: seq<byte>)
    ensures REG.Fold(init, pre + [u] + post) == REG.Fold(init, pre + [v] + post) <==> u == v
  {
    IsLawful();
    IsPacked();
    IsInjective();
    REG.BurstDetected(init, pre, [u], [v], post);
    assert [u] == [v] <==> [u][0] == [v][0];
  }

  lemma FinalInverts(c: bv8)
    ensures Final(c) == Xor(c, 0xFF)
  {
  }

  lemma FinalInjective(a: bv8, b: bv8)
    requires Final(a) == Final(b)
    ensures a == b
  {
  }

  /** Two messages that differ in a single byte have different checksums. */
  lemma ByteErrorDetected(pre: seq<byte>, u: byte, v: byte, post: seq<byte>, init: bv8)
    ensures Crc(pre + [u] + post, init) == Crc(pre + [v] + post, init) <==> u == v
  {
    hide Final;
    FoldsDiffer(init, pre, u, v, post);
    if Crc(pre + [u] + post, init) == Crc(pre + [v] + post, init) {
      FinalInjective(REG.Fold(init, pre + [u] + post), REG.Fold(init, pre + [v] + post));
    }
  }

  lemma FoldsAgree(init: bv8, xs: seq<byte>, ys: seq<byte>, post: seq<byte>)
    ensures REG.Fold(init, xs + post) == REG.Fold(init, ys + post) <==> REG.Fold(init, xs) == REG.Fold(init, ys)
  {
    IsInjective();
    REG.FoldAppend(init, xs, post);
    REG.FoldAppend(init, ys, post);
    if REG.Fold(init, xs + post) == REG.Fold(init, ys + post) {
      REG.FoldInjective(REG.Fold(init, xs), REG.Fold(init, ys), post);
    }
  }

  /** A common ending neither creates nor hides a difference. */
  lemma SameEnding(xs: seq<byte>, ys: seq<byte>, post: seq<byte>, init: bv8)
    ensures Crc(xs + post, init) == Crc(ys + post, init) <==> Crc(xs, init) == Crc(ys, init)
  {
    hide Final;
    FoldsAgree(init, xs, ys, post);
    if Crc(xs + post, init) == Crc(ys + post, init) {
      FinalInjective(REG.Fold(init, xs + post), REG.Fold(init, ys + post));
    }
    if Crc(xs, init) == Crc(ys, init) {
      FinalInjective(REG.Fold(init, xs), REG.Fold(init, ys));
    }
  }

  /** Two pairs of bytes that differ in both and have the same checksum. */
  lemma CollidingPairs()
    ensures Crc([0x00, 0x00], 0xFF) == 0xBE && Crc([0x83, 0x01], 0xFF) == 0xBE
  {
    AbsorbSteps(0xFF, 0x00, 0xFF);
    AbsorbSteps(0xFF, 0x83, 0x7C);
    AbsorbSteps(0xC4, 0x00, 0xC4);
    AbsorbSteps(0xC5, 0x01, 0xC4);
    EightStepsOf(0xFF);
    EightStepsOf(0x7C);
    EightStepsOf(0xC4);
    assert [0x00, 0x00] == [0x00] + [0x00] && [0x83, 0x01] == [0x83] + [0x01];
    REG.FoldAppend(0xFF, [0x00], [0x00]);
    REG.FoldAppend(0xFF, [0x83], [0x01]);
    REG.FoldOne(0xFF, 0x00);
    REG.FoldOne(0xC4, 0x00);
    REG.FoldOne(0xFF, 0x83);
    REG.FoldOne(0xC5, 0x01);
  }

  lemma EightStepsOf(c: bv8)
    ensures REG.Steps(c, 8) == FourSteps(FourSteps(c))
  {
    hide FourSteps;
    FourStepsAre(c);
    FourStepsAre(FourSteps(c));
    REG.EightSteps(c);
  }

  lemma AbsorbSteps(c: bv8, b: byte, x: bv8)
    requires x == c ^ Bits(b)
    ensures REG.Absorb(c, b) == REG.Steps(x, 8)
  {
  }

  // ---- Values of the checksum ---------------------------------------------------------------

  const ONES: bv8 := 0xFF

  function FourSteps(c: bv8): bv8 {
    Step(Step(Step(Step(c))))
  }

  lemma FourStepsAre(c: bv8)
    ensures REG.FourSteps(c) == FourSteps(c)
  {
    hide Step;
    StepIs(c);
    StepIs(Step(c));
    StepIs(Step(Step(c)));
    StepIs(Step(Step(Step(c))));
  }

  predicate Reaches(front: seq<byte>, c: bv8) {
    REG.Fold(ONES, front) == c
  }

  /** What a byte does to the register. */
  predicate Advances(c: bv8, b: byte, after: bv8) {
    after == FourSteps(FourSteps(Xor(c, Bits(b))))
  }

  lemma Digit1()
    ensures Advances(ONES, 0x31, 0x93)
  {
    assert Bits(0x31) == 0x31;
  }

  lemma Digit2()
    ensures Advances(0x93, 0x32, 0xBC)
  {
    assert Bits(0x32) == 0x32;
  }

  lemma Digit3()
    ensures Advances(0xBC, 0x33, 0x9D)
  {
    assert Bits(0x33) == 0x33;
  }

  lemma Digit4()
    ensures Advances(0x9D, 0x34, 0x54)
  {
    assert Bits(0x34) == 0x34;
  }

  lemma Digit5()
    ensures Advances(0x54, 0x35, 0x89)
  {
    assert Bits(0x35) == 0x35;
  }

  lemma Digit6()
    ensures Advances(0x89, 0x36, 0xD7)
  {
    assert Bits(0x36) == 0x36;
  }

  lemma Digit7()
    ensures Advances(0xD7, 0x37, 0xB2)
  {
    assert Bits(0x37) == 0x37;
  }

  lemma Digit8()
    ensures Advances(0xB2, 0x38, 0xF4)
  {
    assert Bits(0x38) == 0x38;
  }

  lemma Digit9()
    ensures Advances(0xF4, 0x39, 0xB4)
  {
    assert Bits(0x39) == 0x39;
  }

  lemma NextByte(front: seq<byte>, c: bv8, b: byte, after: bv8)
    requires Reaches(front, c) && Advances(c, b, after)
    ensures Reaches(front + [b], after)
  {
    hide FourSteps, Bits, Xor;
    var x := Xor(c, Bits(b));
    PlaceIs(b, 0);
    XorIs(c, Bits(b));
    FourStepsAre(x);
    FourStepsAre(FourSteps(x));
    REG.OneMoreByte(ONES, front, b, x, after);
  }

  lemma FirstDigits()
    ensures Reaches([0x31, 0x32, 0x33, 0x34], 0x54)
  {
    hide Advances, Reaches;
    Digit1();
    Digit2();
    Digit3();
    Digit4();
    NothingReaches();
    var m: seq<byte> := [];
    NextByte(m, ONES, 0x31, 0x93);
    m := m + [0x31];
    NextByte(m, 0x93, 0x32, 0xBC);
    m := m + [0x32];
    NextByte(m, 0xBC, 0x33, 0x9D);
    m := m + [0x33];
    NextByte(m, 0x9D, 0x34, 0x54);
    m := m + [0x34];
    assert m == [0x31, 0x32, 0x33, 0x34];
  }

  /** The published check value: the checksum of the nine digits "123456789". */
  lemma CheckValue()
    ensures Crc([0x31, 0x32, 0x33, 0x34, 0x35, 0x36, 0x37, 0x38, 0x39], ONES) == 0x4B
  {
    hide Advances, Reaches, Crc, Final;
    FirstDigits();
    Digit5();
    Digit6();
    Digit7();
    Digit8();
    Digit9();
    var m: seq<byte> := [0x31, 0x32, 0x33, 0x34];
    NextByte(m, 0x54, 0x35, 0x89);
    m := m + [0x35];
    NextByte(m, 0x89, 0x36, 0xD7);
    m := m + [0x36];
    NextByte(m, 0xD7, 0x37, 0xB2);
    m := m + [0x37];
    NextByte(m, 0xB2, 0x38, 0xF4);
    m := m + [0x38];
    NextByte(m, 0xF4, 0x39, 0xB4);
    m := m + [0x39];
    assert m == [0x31, 0x32, 0x33, 0x34, 0x35, 0x36, 0x37, 0x38, 0x39];
    ReachedCrc(m, 0xB4);
    FinalOf9();
  }

  lemma NothingReaches()
    ensures Reaches([], ONES)
  {
  }

  lemma ReachedCrc(data: seq<byte>, c: bv8)
    requires Reaches(data, c)
    ensures Crc(data, ONES) == Final(c)
  {
  }

  lemma FinalOf9()
    ensures Final(0xB4) == 0x4B
  {
  }

  lemma StepsOfOnes()
    ensures REG.Steps(ONES, 8) == 0xC4
  {
    FourStepsAre(0xFF);
    REG.EightSteps(0xFF);
  }

  lemma SumsToOnes(c: bv8, word: bv8)
    ensures Xor(c, word) == ONES <==> word == Xor(c, 0xFF)
  {
    SumIsOnes(c, word);
    if Xor(c, word) == ONES {
      assert Xor(c, Xor(c, word)) == word;
    }
  }

  lemma SumIsOnes(c: bv8, word: bv8)
    ensures word == Xor(c, 0xFF) ==> Xor(c, word) == ONES
  {
  }

  /**
  The residue: a message that is followed by a byte,
  has this one checksum exactly if that byte is the checksum of the message.
  */
  lemma ResidueExactly(data: seq<byte>, tail: seq<byte>, init: bv8)
    requires |tail| == 1
    ensures Crc(data + tail, init) == 0x3B <==> Bits(tail[0]) == Crc(data, init)
  {
    hide Xor, Final, Bits, FromBits;
    IsLawful();
    IsPacked();
    IsInjective();
    var c, word := REG.Fold(init, data), Bits(tail[0]);
    PackOne(tail[0]);
    assert tail == [tail[0]];
    UnpackOne(word);
    FromBitsOfBits(tail[0]);
    REG.EndingsAgree(init, data, word, ONES);
    StepsOfOnes();
    XorIs(c, word);
    SumsToOnes(c, word);
    FinalInverts(c);
    FinalInverts(REG.Fold(init, data + tail));
    SumsToConstant(REG.Fold(init, data + tail));
  }

  lemma SumsToConstant(c: bv8)
    ensures Xor(c, 0xFF) == 0x3B <==> c == 0xC4
  {
  }

  // ---- Bits inside the register ---------------------------------------------------------------------

  /** The top n bits of x are clear. */
  predicate Quiet(x: bv8, n: nat)
    decreases n
  {
    n == 0 || (x & 0x80 == 0 && Quiet(Out(x), n - 1))
  }

  function Out(x: bv8): bv8 {
    x << 1
  }

  function ShiftLeft(x: bv8, n: nat): bv8
    decreases n
  {
    if n == 0 then x else ShiftLeft(Out(x), n - 1)
  }

  lemma {:induction false} QuietSteps(x: bv8, n: nat)
    requires Quiet(x, n)
    ensures REG.Steps(x, n) == ShiftLeft(x, n)
    decreases n
  {
    if n > 0 {
      StepIs(x);
      QuietSteps(Out(x), n - 1);
    }
  }

  // ---- Bit by bit ---------------------------------------------------------------------------------

  /** The bit that falls out with the next step, and the bit at the low end. */
  function Falls(x: bv8): bool {
    x & 0x80 != 0
  }

  function Last(x: bv8): bool {
    x & 1 != 0
  }

  const SHIFT: Shift<bv8> := Shift(Falls, Out, Last, 1, 0x80, 8)

  lemma FallsXor(a: bv8, b: bv8)
    ensures Falls(Xor(a, b)) == (Falls(a) != Falls(b))
  {
  }

  lemma LastXor(a: bv8, b: bv8)
    ensures Last(Xor(a, b)) == (Last(a) != Last(b))
  {
  }

  lemma LastShifted(a: bv8)
    ensures !Last(Out(a))
  {
  }

  lemma StepOfTop()
    ensures Step(0x80) == 0x1D
  {
  }

  lemma StepFalls(x: bv8)
    requires Falls(x)
    ensures Step(x) == Xor(0x1D, Out(x))
  {
  }

  lemma StepQuiet(x: bv8)
    requires !Falls(x)
    ensures Step(x) == Xor(0, Out(x))
  {
  }

  lemma StepShifts(x: bv8)
    ensures Step(x) == Xor(if Falls(x) then Step(0x80) else 0, Out(x))
  {
    hide Step, Falls, Xor, Out;
    StepOfTop();
    if Falls(x) {
      StepFalls(x);
    } else {
      StepQuiet(x);
    }
  }

  lemma {:induction false} ShiftedIs(x: bv8, n: nat)
    ensures REG.Shifted(SHIFT, x, n) == ShiftLeft(x, n)
    decreases n
  {
    hide Out;
    if n > 0 {
      ShiftedIs(Out(x), n - 1);
    }
  }

  lemma LoadIs(b: byte)
    ensures REG.load(b) == Bits(b)
  {
    hide Bits;
    PlaceIs(b, 0);
  }

  lemma WordShiftsOut(w: bv8)
    ensures ShiftLeft(w, 8) == 0
  {
  }


  lemma {:induction false} QuietIs(x: bv8, n: nat)
    requires Quiet(x, n)
    ensures REG.Quiet(SHIFT, x, n)
    decreases n
  {
    if n > 0 {
      QuietIs(Out(x), n - 1);
    }
  }

  lemma LowQuiet()
    ensures Quiet(1, 7)
  {
    assert Quiet(1, 7);
  }

  lemma LowShifted()
    ensures ShiftLeft(1, 7) == 0x80
  {
    assert ShiftLeft(1, 7) == 0x80;
  }

  lemma LowReachesTop()
    ensures REG.Steps(1, 8) == REG.step(0x80)
  {
    hide Quiet, ShiftLeft, Step;
    LowQuiet();
    LowShifted();
    QuietSteps(1, 7);
    REG.StepsAdd(1, 7, 1);
  }

  lemma IsShift()
    ensures REG.Shifts(SHIFT)
  {
    hide Xor, Step, Falls, Out, Bits, ShiftLeft;
    forall x ensures REG.StepShifts(SHIFT, x) {
      StepIs(x);
      StepIs(0x80);
      StepShifts(x);
      XorIs(if Falls(x) then Step(0x80) else 0, Out(x));
    }
    forall b: byte ensures REG.Shifted(SHIFT, REG.load(b), 8) == 0 {
      LoadIs(b);
      ShiftedIs(Bits(b), 8);
      WordShiftsOut(Bits(b));
    }
    LowReachesTop();
  }

  lemma LowStaysQuiet()
    ensures REG.Quiet(SHIFT, 1, 7)
  {
    hide Falls, Last, Out, Quiet;
    LowQuiet();
    QuietIs(1, 7);
  }

  lemma Ends()
    ensures Last(1) && !Falls(0) && !Last(0)
  {
  }

  lemma IsDigits()
    ensures REG.Digits(SHIFT)
  {
    hide Falls, Last, Xor, Out, Quiet;
    Ends();
    LowStaysQuiet();
    forall a, b ensures SHIFT.falls(REG.xor(a, b)) == (SHIFT.falls(a) != SHIFT.falls(b)) {
      XorIs(a, b);
      FallsXor(a, b);
    }
    forall a, b ensures SHIFT.last(REG.xor(a, b)) == (SHIFT.last(a) != SHIFT.last(b)) {
      XorIs(a, b);
      LastXor(a, b);
    }
    forall a ensures !SHIFT.last(SHIFT.out(a)) {
      LastShifted(a);
    }
  }

  lemma FoldIsRemainder(c: bv8, data: seq<byte>)
    ensures REG.Fold(c, data) == REG.xor(REG.Divide(c, 1, REG.NoBits(8 * |data|)),
                                         REG.Divide(0, 1, REG.Message(SHIFT, data) + REG.NoBits(8)))
  {
    IsLawful();
    IsShift();
    REG.FoldIsRemainder(SHIFT, c, data);
  }

  /**
  The checksum is the inverted remainder, by long division, of init * x^|m| + m * x^8, where m is the
  message with the most significant bit of each byte first.
  */
  lemma CrcIsRemainder(data: seq<byte>, init: bv8)
    ensures Crc(data, init)
         == Xor(Xor(REG.Divide(init, 1, REG.NoBits(8 * |data|)),
                          REG.Divide(0, 1, REG.Message(SHIFT, data) + REG.NoBits(8))), 0xFF)
  {
    hide Final, Xor;
    FoldIsRemainder(init, data);
    FinalInverts(REG.Fold(init, data));
    XorIs(REG.Divide(init, 1, REG.NoBits(8 * |data|)),
          REG.Divide(0, 1, REG.Message(SHIFT, data) + REG.NoBits(8)));
  }

  lemma BurstFoldsDiffer(p: seq<byte>, q: seq<byte>, lo: nat, k: nat, init: bv8)
    requires k <= 8 && REG.BitsDifferInside(REG.Message(SHIFT, p), REG.Message(SHIFT, q), lo, k)
    ensures REG.Fold(init, p) == REG.Fold(init, q) <==> p == q
  {
    IsLawful();
    IsPacked();
    IsInjective();
    IsShift();
    IsDigits();
    REG.MessageBurstDetected(SHIFT, init, p, q, lo, k);
  }

  /**
  An error burst of at most 8 consecutive bits, wherever it starts and whatever bytes it touches, changes
  the checksum.
  */
  lemma BitBurstDetected(p: seq<byte>, q: seq<byte>, lo: nat, k: nat, init: bv8)
    requires k <= 8 && REG.BitsDifferInside(REG.Message(SHIFT, p), REG.Message(SHIFT, q), lo, k)
    ensures Crc(p, init) == Crc(q, init) <==> p == q
  {
    hide Final;
    BurstFoldsDiffer(p, q, lo, k, init);
    if Crc(p, init) == Crc(q, init) {
      FinalInjective(REG.Fold(init, p), REG.Fold(init, q));
    }
  }
}
