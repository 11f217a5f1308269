/**
A feedback shift register over GF(2), for any word type.

A CRC is such a register: `step` shifts by one bit and subtracts the polynomial when a bit falls out;
`place(b, i)` puts a byte where the register consumes it after i other bytes. Everything the
table-driven and sliced algorithms rely on follows from `step` being linear over `xor`; it is proved
here once and instantiated for the 8-, 32- and 64-bit registers.
*/
module LinearRegister {
  import opened Bytes

  function Zeros(n: nat): (r: seq<byte>)
    ensures |r| == n
  {
    seq(n, i => 0)
  }

  /**
  How single bits pass through a register of `length` bits: the one that falls out with the next step,
  the register after a step without the polynomial, the bit at the low end, and the registers that hold
  only the lowest and only the highest bit.
  */
  datatype Shift<!W> = Shift(falls: W -> bool, out: W -> W, last: W -> bool, low: W, top: W, length: nat)

  datatype Register<!W(!new)> = Register(
    zero: W, xor: (W, W) -> W, step: W -> W,
    width: nat, place: (byte, nat) -> W, byteAt: (W, nat) -> byte)
  {
    /** A byte where the register consumes it. */
    function load(b: byte): W {
      place(b, 0)
    }

    // ---- Laws of a concrete register ---------------------------------------------

    function Sum4(a: W, b: W, c: W, d: W): W {
      xor(xor(a, b), xor(c, d))
    }

    /** `xor` is a commutative monoid with unit `zero` (the exchange law gives both other laws). */
    ghost predicate Group() {
      && (forall a, b, c, d :: Sum4(a, b, c, d) == Sum4(a, c, b, d))
      && (forall a {:trigger xor(a, zero)} :: xor(a, zero) == a)
      && (forall a {:trigger xor(zero, a)} :: xor(zero, a) == a)
    }

    ghost predicate Linear() {
      && step(zero) == zero
      && (forall a, b {:trigger step(xor(a, b))} :: step(xor(a, b)) == xor(step(a), step(b)))
    }

    ghost predicate Lawful() {
      Group() && Linear()
    }

    /** The register is the sum of `width` bytes, the i-th of which is consumed after i others. */
    ghost predicate Packed() {
      && (forall b: byte, i: nat :: i < width ==> Steps(place(b, i), 8 * i) == place(b, 0))
      && (forall c :: Pack(Unpack(c)) == c)
      && (forall bs: seq<byte> :: |bs| == width ==> Unpack(Pack(bs)) == bs)
    }

    ghost predicate Injective() {
      && (forall a, b :: step(a) == step(b) ==> a == b)
      && (forall a, b, c :: xor(c, a) == xor(c, b) ==> a == b)
      && (forall a, b, c :: xor(a, c) == xor(b, c) ==> a == b)
    }

    // ---- Bitwise definition ------------------------------------------------------

    function Steps(c: W, n: nat): W
      decreases n, c
    {
      if n == 0 then c else Steps(step(c), n - 1)
    }

    function Absorb(c: W, b: byte): W {
      Steps(xor(c, load(b)), 8)
    }

    /** The register after `data`, one bit at a time. */
    function Fold(c: W, data: seq<byte>): W
      decreases |data|
    {
      if |data| == 0 then c else Fold(Absorb(c, data[0]), data[1..])
    }

    // ---- Words and their bytes ---------------------------------------------------

    function Sum(ws: seq<W>): W
      decreases |ws|
    {
      if |ws| == 0 then zero else xor(ws[0], Sum(ws[1..]))
    }

    function Places(bs: seq<byte>): (ws: seq<W>)
      ensures |ws| == |bs|
    {
      seq(|bs|, i requires 0 <= i < |bs| => place(bs[i], i))
    }

    function Pack(bs: seq<byte>): W {
      Sum(Places(bs))
    }

    function Unpack(c: W): (bs: seq<byte>)
      ensures |bs| == width
    {
      seq(width, i requires 0 <= i < width => byteAt(c, i))
    }

    // ---- Steps -------------------------------------------------------------------

    lemma {:induction false} StepsAdd(c: W, m: nat, n: nat)
      ensures Steps(c, m + n) == Steps(Steps(c, m), n)
      decreases m
    {
      if m > 0 {
        StepsAdd(step(c), m - 1, n);
      }
    }

    lemma {:induction false} StepsLinear(a: W, b: W, n: nat)
      requires Lawful()
      ensures Steps(xor(a, b), n) == xor(Steps(a, n), Steps(b, n))
      decreases n
    {
      if n > 0 {
        StepsLinear(step(a), step(b), n - 1);
      }
    }

    lemma {:induction false} StepsZero(n: nat)
      requires Lawful()
      ensures Steps(zero, n) == zero
    {
      if n > 0 {
        StepsZero(n - 1);
      }
    }

    lemma {:induction false} StepsInjective(a: W, b: W, n: nat)
      requires Injective()
      requires Steps(a, n) == Steps(b, n)
      ensures a == b
      decreases n
    {
      if n > 0 {
        StepsInjective(step(a), step(b), n - 1);
      }
    }

    // ---- Folds -------------------------------------------------------------------

    lemma {:induction false} FoldAppend(c: W, xs: seq<byte>, ys: seq<byte>)
      ensures Fold(c, xs + ys) == Fold(Fold(c, xs), ys)
      decreases |xs|
    {
      if |xs| == 0 {
        assert xs + ys == ys;
      } else {
        assert (xs + ys)[1..] == xs[1..] + ys;
        FoldAppend(Absorb(c, xs[0]), xs[1..], ys);
      }
    }

    lemma FoldOne(c: W, b: byte)
      ensures Fold(c, [b]) == Absorb(c, b)
    {
      assert Fold(Absorb(c, b), [b][1..]) == Absorb(c, b);
    }

    // ---- Slicing: a message is the sum of the contributions of its bytes -------------

    /** The sum over the bytes of what byte `i`, followed by |q| - 1 - i zero bytes, contributes. */
    function Sliced(q: seq<byte>): W
      decreases |q|
    {
      if |q| == 0 then zero else xor(Steps(load(q[0]), 8 * |q|), Sliced(q[1..]))
    }

    lemma {:induction false} FoldSplits(c: W, q: seq<byte>)
      requires Lawful()
      ensures Fold(c, q) == xor(Steps(c, 8 * |q|), Sliced(q))
      decreases |q|
    {
      if |q| > 0 {
        var n := |q|;
        var rest := q[1..];
        FoldSplits(Absorb(c, q[0]), rest);
        StepsLinear(c, load(q[0]), 8 * n);
        StepsAdd(xor(c, load(q[0])), 8, 8 * (n - 1));
        Associate(Steps(c, 8 * n), Steps(load(q[0]), 8 * n), Sliced(rest));
      }
    }

    lemma Associate(a: W, b: W, c: W)
      requires Group()
      ensures xor(xor(a, b), c) == xor(a, xor(b, c))
    {
      assert Sum4(a, b, zero, c) == Sum4(a, zero, b, c);
    }

    lemma FoldIsSliced(q: seq<byte>)
      requires Lawful()
      ensures Fold(zero, q) == Sliced(q)
    {
      FoldSplits(zero, q);
      StepsZero(8 * |q|);
    }

    // ---- A register as the bytes it holds --------------------------------------------

    /** `ws[i]` is where byte `b[i]` sits while it waits for i earlier bytes to be consumed. */
    ghost predicate Holds(ws: seq<W>, b: seq<byte>, from: nat) {
      && |ws| == |b|
      && forall i :: 0 <= i < |b| ==> Steps(ws[i], 8 * (from + i)) == load(b[i])
    }

    lemma {:induction false} HeldIsSliced(ws: seq<W>, b: seq<byte>, from: nat)
      requires Lawful() && Holds(ws, b, from)
      ensures Steps(Sum(ws), 8 * (from + |b|)) == Sliced(b)
      decreases |b|
    {
      var n := 8 * (from + |b|);
      if |b| == 0 {
        StepsZero(n);
      } else {
        var ws', b' := ws[1..], b[1..];
        forall i | 0 <= i < |b'|
          ensures Steps(ws'[i], 8 * (from + 1 + i)) == load(b'[i])
        {
          assert ws'[i] == ws[i + 1] && b'[i] == b[i + 1];
        }
        HeldIsSliced(ws', b', from + 1);
        StepsLinear(ws[0], Sum(ws'), n);
        assert Steps(ws[0], 8 * (from + 0)) == load(b[0]);
        StepsAdd(ws[0], 8 * from, 8 * |b|);
      }
    }

    lemma HoldsPlaces(bs: seq<byte>)
      requires Packed() && |bs| <= width
      ensures Holds(Places(bs), bs, 0)
    {
      forall i | 0 <= i < |bs| ensures Steps(Places(bs)[i], 8 * (0 + i)) == load(bs[i]) {
        assert Steps(place(bs[i], i), 8 * i) == place(bs[i], 0);
      }
    }

    lemma PackIsSliced(bs: seq<byte>)
      requires Lawful() && Packed() && |bs| <= width
      ensures Steps(Pack(bs), 8 * |bs|) == Sliced(bs)
    {
      HoldsPlaces(bs);
      HeldIsSliced(Places(bs), bs, 0);
    }

    lemma FoldIsPack(c: W, bs: seq<byte>)
      requires Lawful() && Packed() && |bs| <= width
      ensures Fold(c, bs) == Steps(xor(c, Pack(bs)), 8 * |bs|)
    {
      FoldSplits(c, bs);
      PackIsSliced(bs);
      StepsLinear(c, Pack(bs), 8 * |bs|);
    }

    lemma FoldWord(c: W, first: seq<byte>)
      requires Lawful() && Packed() && |first| == width
      ensures Fold(c, first) == Sliced(Unpack(xor(c, Pack(first))))
    {
      var x := xor(c, Pack(first));
      FoldIsPack(c, first);
      PackIsSliced(Unpack(x));
      assert Pack(Unpack(x)) == x;
    }

    /** A register xored onto the message and looked up byte by byte. */
    lemma FoldBlock(c: W, first: seq<byte>, rest: seq<byte>)
      requires Lawful() && Packed() && |first| == width
      ensures Fold(c, first + rest) == Sliced(Unpack(xor(c, Pack(first))) + rest)
    {
      var q := Unpack(xor(c, Pack(first)));
      FoldWord(c, first);
      FoldIsSliced(q);
      FoldAppend(c, first, rest);
      FoldAppend(zero, q, rest);
      FoldIsSliced(q + rest);
    }

    // ---- Tables --------------------------------------------------------------------

    /** Entry i is the contribution of byte i followed by k zero bytes. */
    ghost predicate IsTable(t: seq<W>, k: nat) {
      |t| == 256 && forall i :: 0 <= i < 256 ==> t[i] == Steps(load(i), 8 * (k + 1))
    }

    /** One lookup for the byte about to leave the register, plus what becomes of the other bits. */
    lemma AbsorbLooksUp(t: seq<W>, c: W, b: byte, low: byte, high: W)
      requires Lawful() && IsTable(t, 0)
      requires xor(c, load(b)) == xor(load(low), high)
      ensures Absorb(c, b) == xor(t[low], Steps(high, 8))
    {
      StepsLinear(load(low), high, 8);
    }

    ghost predicate IsSlice8(t: seq<seq<W>>) {
      |t| == 8 && forall k :: 0 <= k < 8 ==> IsTable(t[k], k)
    }

    /** The eight lookups of one block, combined from left to right as the code does. */
    function Lookup8(t: seq<seq<W>>, q: seq<byte>): W
      requires |t| == 8 && |q| == 8 && forall k :: 0 <= k < 8 ==> |t[k]| == 256
    {
      xor(xor(xor(xor(xor(xor(xor(
        t[7][q[0]], t[6][q[1]]), t[5][q[2]]), t[4][q[3]]), t[3][q[4]]), t[2][q[5]]), t[1][q[6]]), t[0][q[7]])
    }

    lemma Lookup8IsSliced(t: seq<seq<W>>, q: seq<byte>)
      requires Lawful() && IsSlice8(t) && |q| == 8
      ensures Lookup8(t, q) == Sliced(q)
    {
      var s1, s2, s3, s4 := Sliced(q[1..]), Sliced(q[2..]), Sliced(q[3..]), Sliced(q[4..]);
      var s5, s6, s7 := Sliced(q[5..]), Sliced(q[6..]), Sliced(q[7..]);
      forall k | 0 <= k < 8 ensures Sliced(q[k..]) == xor(t[7 - k][q[k]], Sliced(q[k + 1..])) {
        assert q[k..][1..] == q[k + 1..];
        assert IsTable(t[7 - k], 7 - k);
      }
      assert q[0..] == q && Sliced(q[8..]) == zero;
      var a := t[7][q[0]];
      Associate(a, t[6][q[1]], s2);
      a := xor(a, t[6][q[1]]);
      Associate(a, t[5][q[2]], s3);
      a := xor(a, t[5][q[2]]);
      Associate(a, t[4][q[3]], s4);
      a := xor(a, t[4][q[3]]);
      Associate(a, t[3][q[4]], s5);
      a := xor(a, t[3][q[4]]);
      Associate(a, t[2][q[5]], s6);
      a := xor(a, t[2][q[5]]);
      Associate(a, t[1][q[6]], s7);
    }

    // ---- Values ----------------------------------------------------------------------

    function FourSteps(c: W): W {
      step(step(step(step(c))))
    }

    lemma EightSteps(c: W)
      ensures Steps(c, 8) == FourSteps(FourSteps(c))
    {
      StepsFour(c, 4);
      StepsFour(FourSteps(c), 0);
    }

    lemma StepsFour(c: W, n: nat)
      ensures Steps(c, n + 4) == Steps(FourSteps(c), n)
    {
      assert Steps(c, n + 4) == Steps(step(c), n + 3);
      assert Steps(step(c), n + 3) == Steps(step(step(c)), n + 2);
      assert Steps(step(step(c)), n + 2) == Steps(step(step(step(c))), n + 1);
    }

    /** One more byte, given the register with that byte in it and the register eight steps later. */
    lemma OneMoreByte(init: W, front: seq<byte>, b: byte, x: W, after: W)
      requires x == xor(Fold(init, front), load(b)) && after == FourSteps(FourSteps(x))
      ensures Fold(init, front + [b]) == after
    {
      FoldAppend(init, front, [b]);
      FoldOne(Fold(init, front), b);
      EightSteps(x);
    }

    /** A message followed by a word leaves the same register as another one exactly if the sums agree. */
    lemma EndingsAgree(c: W, data: seq<byte>, word: W, other: W)
      requires Lawful() && Packed() && Injective()
      ensures Fold(c, data + Unpack(word)) == Steps(other, 8 * width) <==> xor(Fold(c, data), word) == other
    {
      FoldAppend(c, data, Unpack(word));
      FoldIsPack(Fold(c, data), Unpack(word));
      assert Pack(Unpack(word)) == word;
      if Steps(xor(Fold(c, data), word), 8 * width) == Steps(other, 8 * width) {
        StepsInjective(xor(Fold(c, data), word), other, 8 * width);
      }
    }

    // ---- Error detection -----------------------------------------------------------

    lemma {:induction false} FoldInjective(a: W, b: W, data: seq<byte>)
      requires Injective() && Fold(a, data) == Fold(b, data)
      ensures a == b
      decreases |data|
    {
      if |data| > 0 {
        FoldInjective(Absorb(a, data[0]), Absorb(b, data[0]), data[1..]);
        StepsInjective(xor(a, load(data[0])), xor(b, load(data[0])), 8);
      }
    }

    /** A window of exactly the register's width is determined by the registers around it. */
    lemma FullWindow(c: W, u: seq<byte>, v: seq<byte>)
      requires Lawful() && Packed() && Injective() && |u| == |v| == width
      requires Fold(c, u) == Fold(c, v)
      ensures u == v
    {
      FoldIsPack(c, u);
      FoldIsPack(c, v);
      StepsInjective(xor(c, Pack(u)), xor(c, Pack(v)), 8 * width);
      assert Pack(u) == Pack(v);
    }

    lemma Window(c: W, u: seq<byte>, v: seq<byte>)
      requires Lawful() && Packed() && Injective() && |u| == |v| <= width
      requires Fold(c, u) == Fold(c, v)
      ensures u == v
    {
      var z := Zeros(width - |u|);
      FoldAppend(c, u, z);
      FoldAppend(c, v, z);
      FullWindow(c, u + z, v + z);
      assert u == (u + z)[..|u|] && v == (v + z)[..|v|];
    }

    /** Messages that differ only inside a window of at most `width` bytes leave different registers. */
    lemma BurstDetected(c: W, pre: seq<byte>, u: seq<byte>, v: seq<byte>, post: seq<byte>)
      requires Lawful() && Packed() && Injective() && |u| == |v| <= width
      ensures Fold(c, pre + u + post) == Fold(c, pre + v + post) <==> u == v
    {
      FoldAppend(c, pre + u, post);
      FoldAppend(c, pre, u);
      FoldAppend(c, pre + v, post);
      FoldAppend(c, pre, v);
      if Fold(c, pre + u + post) == Fold(c, pre + v + post) {
        FoldInjective(Fold(c, pre + u), Fold(c, pre + v), post);
        Window(Fold(c, pre), u, v);
      }
    }

    // ---- Polynomial long division --------------------------------------------------

    function Coefficient(bit: bool, w: W): W {
      if bit then w else zero
    }

    /**
     Schoolbook long division by the polynomial behind `step`: bring down the next coefficient of
     the dividend at the low end `low`; `step` subtracts the divisor when a coefficient overflows.
     */
    function Divide(w: W, low: W, dividend: seq<bool>): W
      decreases |dividend|
    {
      if |dividend| == 0 then w
      else Divide(xor(step(w), Coefficient(dividend[0], low)), low, dividend[1..])
    }

    /** The same message fed at the high end `top` of the register, the way a CRC is computed. */
    function Feed(c: W, top: W, message: seq<bool>): W
      decreases |message|
    {
      if |message| == 0 then c
      else Feed(step(xor(c, Coefficient(message[0], top))), top, message[1..])
    }

    /** Feeding at the high end is dividing the message with n zero coefficients appended. */
    lemma {:induction false} FeedIsDivide(w: W, low: W, top: W, n: nat, message: seq<bool>)
      requires Lawful() && Steps(low, n) == step(top)
      ensures Feed(Steps(w, n), top, message) == Steps(Divide(w, low, message), n)
      decreases |message|
    {
      if |message| > 0 {
        var bit := message[0];
        StepsZero(n);
        StepsLinear(step(w), Coefficient(bit, low), n);
        StepsAdd(w, 1, n);
        StepsAdd(w, n, 1);
        FeedIsDivide(xor(step(w), Coefficient(bit, low)), low, top, n, message[1..]);
      }
    }

    function NoBits(n: nat): (r: seq<bool>)
      ensures |r| == n
    {
      seq(n, i => false)
    }

    lemma {:induction false} DivideNoBits(w: W, low: W, n: nat)
      requires Lawful()
      ensures Divide(w, low, NoBits(n)) == Steps(w, n)
      decreases n
    {
      if n > 0 {
        assert NoBits(n)[1..] == NoBits(n - 1);
        DivideNoBits(step(w), low, n - 1);
      }
    }

    lemma {:induction false} DivideAppend(w: W, low: W, p: seq<bool>, q: seq<bool>)
      ensures Divide(w, low, p + q) == Divide(Divide(w, low, p), low, q)
      decreases |p|
    {
      if |p| == 0 {
        assert p + q == q;
      } else {
        assert (p + q)[1..] == p[1..] + q;
        DivideAppend(xor(step(w), Coefficient(p[0], low)), low, p[1..], q);
      }
    }

    lemma {:induction false} FeedAppend(c: W, top: W, p: seq<bool>, q: seq<bool>)
      ensures Feed(c, top, p + q) == Feed(Feed(c, top, p), top, q)
      decreases |p|
    {
      if |p| == 0 {
        assert p + q == q;
      } else {
        assert (p + q)[1..] == p[1..] + q;
        FeedAppend(step(xor(c, Coefficient(p[0], top))), top, p[1..], q);
      }
    }

    // ---- Bits of a message --------------------------------------------------------------

    /** The first n bits of a word, in the order in which they fall out. */
    function BitsOf(sh: Shift<W>, x: W, n: nat): (r: seq<bool>)
      ensures |r| == n
      decreases n
    {
      if n == 0 then [] else [sh.falls(x)] + BitsOf(sh, sh.out(x), n - 1)
    }

    /** A word shifted by n bits. */
    function Shifted(sh: Shift<W>, x: W, n: nat): W
      decreases n
    {
      if n == 0 then x else Shifted(sh, sh.out(x), n - 1)
    }

    /** The bits of a message, every byte in the order in which the register consumes it. */
    function Message(sh: Shift<W>, data: seq<byte>): (r: seq<bool>)
      ensures |r| == 8 * |data|
      decreases |data|
    {
      if |data| == 0 then [] else BitsOf(sh, load(data[0]), 8) + Message(sh, data[1..])
    }

    /** Nothing falls out of the register for n steps. */
    predicate Quiet(sh: Shift<W>, x: W, n: nat)
      decreases n
    {
      n == 0 || (!sh.falls(x) && Quiet(sh, sh.out(x), n - 1))
    }

    /** A step shifts, and subtracts the polynomial if a bit falls out. */
    ghost predicate StepShifts(sh: Shift<W>, x: W) {
      step(x) == xor(Coefficient(sh.falls(x), step(sh.top)), sh.out(x))
    }

    /** Every step shifts, and a byte is at most eight bits. */
    ghost predicate Shifts(sh: Shift<W>) {
      && (forall x :: StepShifts(sh, x))
      && (forall b: byte :: Shifted(sh, load(b), 8) == zero)
      && sh.length > 0 && Steps(sh.low, sh.length) == step(sh.top)
    }

    /** The outermost bits of a sum are the sums of the outermost bits; a shift leaves the low end empty. */
    ghost predicate Digits(sh: Shift<W>) {
      && !sh.falls(zero) && !sh.last(zero) && sh.last(sh.low)
      && (forall a, b {:trigger sh.falls(xor(a, b))} :: sh.falls(xor(a, b)) == (sh.falls(a) != sh.falls(b)))
      && (forall a, b {:trigger sh.last(xor(a, b))} :: sh.last(xor(a, b)) == (sh.last(a) != sh.last(b)))
      && (forall a {:trigger sh.out(a)} :: !sh.last(sh.out(a)))
      && sh.length > 0 && Quiet(sh, sh.low, sh.length - 1)
    }

    /** Consuming a word at once is consuming its bits one by one. */
    lemma {:induction false} WordIsFeed(sh: Shift<W>, c: W, x: W, n: nat)
      requires Lawful() && Shifts(sh) && Shifted(sh, x, n) == zero
      ensures Steps(xor(c, x), n) == Feed(c, sh.top, BitsOf(sh, x, n))
      decreases n
    {
      if n > 0 {
        var k := Coefficient(sh.falls(x), step(sh.top));
        assert StepShifts(sh, x);
        assert step(Coefficient(sh.falls(x), sh.top)) == k;
        Associate(step(c), k, sh.out(x));
        WordIsFeed(sh, xor(step(c), k), sh.out(x), n - 1);
      }
    }

    lemma {:induction false} FoldIsFeed(sh: Shift<W>, c: W, data: seq<byte>)
      requires Lawful() && Shifts(sh)
      ensures Fold(c, data) == Feed(c, sh.top, Message(sh, data))
      decreases |data|
    {
      if |data| > 0 {
        WordIsFeed(sh, c, load(data[0]), 8);
        FoldIsFeed(sh, Absorb(c, data[0]), data[1..]);
        FeedAppend(c, sh.top, BitsOf(sh, load(data[0]), 8), Message(sh, data[1..]));
      }
    }

    /**
    The register after `data` is the remainder of (message * x^n + c * x^|message|) by the polynomial, n
    being the register's length in bits.
    */
    lemma FoldIsRemainder(sh: Shift<W>, c: W, data: seq<byte>)
      requires Lawful() && Shifts(sh)
      ensures Fold(c, data) == xor(Divide(c, sh.low, NoBits(8 * |data|)),
                                   Divide(zero, sh.low, Message(sh, data) + NoBits(sh.length)))
    {
      var n, low := sh.length, sh.low;
      FoldSplits(c, data);
      FoldSplits(zero, data);
      StepsZero(8 * |data|);
      FoldIsFeed(sh, zero, data);
      StepsZero(n);
      FeedIsDivide(zero, low, sh.top, n, Message(sh, data));
      DivideAppend(zero, low, Message(sh, data), NoBits(n));
      DivideNoBits(Divide(zero, low, Message(sh, data)), low, n);
      DivideNoBits(c, low, 8 * |data|);
    }

    // ---- Bursts of bits -------------------------------------------------------------------

    lemma QuietStep(sh: Shift<W>, a: W)
      requires Lawful() && Shifts(sh) && !sh.falls(a)
      ensures step(a) == sh.out(a)
    {
      assert StepShifts(sh, a);
    }

    lemma {:induction false} QuietSum(sh: Shift<W>, a: W, b: W, n: nat)
      requires Lawful() && Shifts(sh) && Digits(sh) && Quiet(sh, a, n) && Quiet(sh, b, n)
      ensures Quiet(sh, xor(a, b), n)
      decreases n
    {
      if n > 0 {
        QuietStep(sh, a);
        QuietStep(sh, b);
        QuietStep(sh, xor(a, b));
        QuietSum(sh, sh.out(a), sh.out(b), n - 1);
      }
    }

    lemma {:induction false} QuietLess(sh: Shift<W>, x: W, m: nat, n: nat)
      requires m <= n && Quiet(sh, x, n)
      ensures Quiet(sh, x, m)
      decreases m
    {
      if m > 0 {
        QuietLess(sh, sh.out(x), m - 1, n - 1);
      }
    }

    lemma {:induction false} QuietZero(sh: Shift<W>, n: nat)
      requires Lawful() && Shifts(sh) && Digits(sh)
      ensures Quiet(sh, zero, n)
      decreases n
    {
      if n > 0 {
        QuietStep(sh, zero);
        QuietZero(sh, n - 1);
      }
    }

    lemma DivideOneMore(low: W, u: seq<bool>)
      requires |u| > 0
      ensures Divide(zero, low, u)
           == xor(step(Divide(zero, low, u[..|u| - 1])), Coefficient(u[|u| - 1], low))
    {
      assert u == u[..|u| - 1] + [u[|u| - 1]];
      DivideAppend(zero, low, u[..|u| - 1], [u[|u| - 1]]);
    }

    /** A dividend no longer than the register is its own remainder: it fills the low end only. */
    lemma {:induction false} DividendQuiet(sh: Shift<W>, u: seq<bool>)
      requires Lawful() && Shifts(sh) && Digits(sh) && |u| <= sh.length
      ensures Quiet(sh, Divide(zero, sh.low, u), sh.length - |u|)
      decreases |u|
    {
      var n := sh.length - |u|;
      QuietZero(sh, n);
      if |u| > 0 {
        var front := Divide(zero, sh.low, u[..|u| - 1]);
        DividendQuiet(sh, u[..|u| - 1]);
        DivideOneMore(sh.low, u);
        QuietStep(sh, front);
        QuietLess(sh, sh.low, n, sh.length - 1);
        QuietSum(sh, step(front), Coefficient(u[|u| - 1], sh.low), n);
      }
    }

    lemma {:induction false} DivideInjective(sh: Shift<W>, u: seq<bool>, v: seq<bool>)
      requires Lawful() && Injective() && Shifts(sh) && Digits(sh)
      requires |u| == |v| <= sh.length && Divide(zero, sh.low, u) == Divide(zero, sh.low, v)
      ensures u == v
      decreases |u|
    {
      if |u| > 0 {
        var k := |u| - 1;
        var a, b := Divide(zero, sh.low, u[..k]), Divide(zero, sh.low, v[..k]);
        DividendQuiet(sh, u[..k]);
        DividendQuiet(sh, v[..k]);
        QuietStep(sh, a);
        QuietStep(sh, b);
        DivideOneMore(sh.low, u);
        DivideOneMore(sh.low, v);
        assert !sh.last(step(a)) && !sh.last(step(b));
        assert u[k] == v[k];
        DivideInjective(sh, u[..k], v[..k]);
        assert u == u[..k] + [u[k]] && v == v[..k] + [v[k]];
      }
    }

    lemma {:induction false} FeedSplits(c: W, top: W, u: seq<bool>)
      requires Lawful()
      ensures Feed(c, top, u) == xor(Steps(c, |u|), Feed(zero, top, u))
      decreases |u|
    {
      if |u| > 0 {
        var k, rest := step(Coefficient(u[0], top)), u[1..];
        FeedSplits(xor(step(c), k), top, rest);
        FeedSplits(k, top, rest);
        StepsLinear(step(c), k, |rest|);
        Associate(Steps(step(c), |rest|), Steps(k, |rest|), Feed(zero, top, rest));
      }
    }

    lemma {:induction false} FeedInjective(a: W, b: W, top: W, u: seq<bool>)
      requires Injective() && Feed(a, top, u) == Feed(b, top, u)
      ensures a == b
      decreases |u|
    {
      if |u| > 0 {
        var k := Coefficient(u[0], top);
        FeedInjective(step(xor(a, k)), step(xor(b, k)), top, u[1..]);
      }
    }

    /** Bits that fill at most the register are determined by the registers around them. */
    lemma BitWindow(sh: Shift<W>, c: W, u: seq<bool>, v: seq<bool>)
      requires Lawful() && Injective() && Shifts(sh) && Digits(sh)
      requires |u| == |v| <= sh.length && Feed(c, sh.top, u) == Feed(c, sh.top, v)
      ensures u == v
    {
      FeedSplits(c, sh.top, u);
      FeedSplits(c, sh.top, v);
      StepsZero(sh.length);
      FeedIsDivide(zero, sh.low, sh.top, sh.length, u);
      FeedIsDivide(zero, sh.low, sh.top, sh.length, v);
      StepsInjective(Divide(zero, sh.low, u), Divide(zero, sh.low, v), sh.length);
      DivideInjective(sh, u, v);
    }

    /** Equally long bit strings that differ at most inside the n bits from `lo`. */
    ghost predicate BitsDifferInside(p: seq<bool>, q: seq<bool>, lo: nat, n: nat) {
      |p| == |q| && lo + n <= |p| && p[..lo] == q[..lo] && p[lo + n..] == q[lo + n..]
    }

    /** Bit strings that differ only inside a window no longer than the register leave different registers. */
    lemma BitBurstDetected(sh: Shift<W>, c: W, p: seq<bool>, q: seq<bool>, lo: nat, k: nat)
      requires Lawful() && Injective() && Shifts(sh) && Digits(sh)
      requires BitsDifferInside(p, q, lo, k) && k <= sh.length
      ensures Feed(c, sh.top, p) == Feed(c, sh.top, q) <==> p == q
    {
      var u, v, front, back := p[lo..lo + k], q[lo..lo + k], p[..lo], p[lo + k..];
      assert p == front + (u + back) && q == front + (v + back);
      FeedAppend(c, sh.top, front, u + back);
      FeedAppend(c, sh.top, front, v + back);
      var d := Feed(c, sh.top, front);
      FeedAppend(d, sh.top, u, back);
      FeedAppend(d, sh.top, v, back);
      if Feed(c, sh.top, p) == Feed(c, sh.top, q) {
        FeedInjective(Feed(d, sh.top, u), Feed(d, sh.top, v), sh.top, back);
        BitWindow(sh, d, u, v);
      }
    }

    lemma ByteFromBits(sh: Shift<W>, a: byte, b: byte)
      requires Lawful() && Packed() && Injective() && width > 0 && Shifts(sh)
      requires BitsOf(sh, load(a), 8) == BitsOf(sh, load(b), 8)
      ensures a == b
    {
      WordIsFeed(sh, zero, load(a), 8);
      WordIsFeed(sh, zero, load(b), 8);
      FoldOne(zero, a);
      FoldOne(zero, b);
      Window(zero, [a], [b]);
      assert [a][0] == [b][0];
    }

    lemma MessageFront(sh: Shift<W>, data: seq<byte>)
      requires |data| > 0
      ensures Message(sh, data)[..8] == BitsOf(sh, load(data[0]), 8)
      ensures Message(sh, data)[8..] == Message(sh, data[1..])
    {
    }

    lemma MessageSize(sh: Shift<W>, x: seq<byte>, y: seq<byte>)
      requires Message(sh, x) == Message(sh, y)
      ensures |x| == |y|
    {
      assert |Message(sh, x)| == 8 * |x| && |Message(sh, y)| == 8 * |y|;
    }

    lemma {:induction false} DataFromBits(sh: Shift<W>, x: seq<byte>, y: seq<byte>)
      requires Lawful() && Packed() && Injective() && width > 0 && Shifts(sh)
      requires Message(sh, x) == Message(sh, y)
      ensures x == y
      decreases |x|
    {
      hide Message, BitsOf, Shifts, Packed, Injective, Lawful;
      MessageSize(sh, x, y);
      if |x| > 0 {
        MessageFront(sh, x);
        MessageFront(sh, y);
        ByteFromBits(sh, x[0], y[0]);
        DataFromBits(sh, x[1..], y[1..]);
        assert x == [x[0]] + x[1..] && y == [y[0]] + y[1..];
      }
    }

    /** Messages whose bits differ only inside such a window leave different registers. */
    lemma MessageBurstDetected(sh: Shift<W>, c: W, p: seq<byte>, q: seq<byte>, lo: nat, k: nat)
      requires Lawful() && Packed() && Injective() && width > 0 && Shifts(sh) && Digits(sh)
      requires BitsDifferInside(Message(sh, p), Message(sh, q), lo, k) && k <= sh.length
      ensures Fold(c, p) == Fold(c, q) <==> p == q
    {
      if Fold(c, p) == Fold(c, q) {
        FoldIsFeed(sh, c, p);
        FoldIsFeed(sh, c, q);
        BitBurstDetected(sh, c, Message(sh, p), Message(sh, q), lo, k);
        DataFromBits(sh, p, q);
      }
    }
  }
}
