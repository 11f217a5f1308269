/** Bytes and fixed-width unsigned integers of the wire format. */
module Bytes {
  type byte = x: int | 0 <= x < 0x100
  type u16 = x: int | 0 <= x < 0x1_0000
  type u32 = x: int | 0 <= x < 0x1_0000_0000

  const TWO16 := 0x1_0000
  const TWO32 := 0x1_0000_0000

  function Pow2(k: nat): nat {
    if k == 0 then 1 else 2 * Pow2(k - 1)
  }

  // ---- Bytes as bit patterns, nibble by nibble (for the CRC code) ----------------

  function Bits(b: byte): bv8 {
    ((b / 16) as bv4 as bv8 << 4) | ((b % 16) as bv4 as bv8)
  }

  function FromBits(x: bv8): byte {
    ((x >> 4) as bv4 as int) * 16 + (x & 0xF) as bv4 as int
  }

  lemma SplitNibbles(h: bv4, l: bv4)
    ensures ((h as bv8 << 4) | (l as bv8)) >> 4 == h as bv8
    ensures ((h as bv8 << 4) | (l as bv8)) & 0xF == l as bv8
  {
  }

  lemma JoinNibbles(x: bv8)
    ensures ((x >> 4) as bv4 as bv8 << 4) | ((x & 0xF) as bv4 as bv8) == x
  {
  }

  lemma NibbleToInt(h: int)
    requires 0 <= h < 16
    ensures (h as bv4) as int == h
  {
  }

  lemma NibbleFromInt(h: bv4)
    ensures (h as int) as bv4 == h
  {
  }

  lemma DivideNibbles(h: int, l: int)
    requires 0 <= l < 16
    ensures (h * 16 + l) / 16 == h && (h * 16 + l) % 16 == l
  {
  }

  lemma FromBitsOfBits(b: byte)
    ensures FromBits(Bits(b)) == b
  {
    SplitNibbles((b / 16) as bv4, (b % 16) as bv4);
    NibbleToInt(b / 16);
    NibbleToInt(b % 16);
  }

  lemma BitsOfFromBits(x: bv8)
    ensures Bits(FromBits(x)) == x
  {
    JoinNibbles(x);
    var h, l := (x >> 4) as bv4, (x & 0xF) as bv4;
    NibbleFromInt(h);
    NibbleFromInt(l);
    DivideNibbles(h as int, l as int);
  }

  // ---- Big-endian integers ---------------------------------------------------------

  function ReadU16(s: seq<byte>, at: nat): u16
    requires at + 2 <= |s|
  {
    s[at] as int * 0x100 + s[at + 1] as int
  }

  function ReadU32(s: seq<byte>, at: nat): u32
    requires at + 4 <= |s|
  {
    ReadU16(s, at) * 0x1_0000 + ReadU16(s, at + 2)
  }

  function HighByte(v: u16): byte {
    v / 0x100
  }

  function LowByte(v: u16): byte {
    v % 0x100
  }

  function HighHalf(v: u32): u16 {
    v / 0x1_0000
  }

  function LowHalf(v: u32): u16 {
    v % 0x1_0000
  }

  function BeU16(v: u16): (r: seq<byte>)
    ensures |r| == 2
  {
    [HighByte(v), LowByte(v)]
  }

  function BeU32(v: u32): (r: seq<byte>)
    ensures |r| == 4
  {
    BeU16(HighHalf(v)) + BeU16(LowHalf(v))
  }

  /** Network byte order: the most significant byte comes first. */
  lemma BigEndian16(v: u16)
    ensures BeU16(v) == [v / 0x100, v % 0x100]
  {
  }

  lemma BigEndian32(v: u32)
    ensures
      var r := BeU32(v);
      v == r[0] as int * 0x100_0000 + r[1] as int * 0x1_0000 + r[2] as int * 0x100 + r[3] as int
  {
  }

  lemma ReadsBigEndian(s: seq<byte>, at: nat)
    requires at + 4 <= |s|
    ensures ReadU16(s, at) == s[at] as int * 0x100 + s[at + 1] as int
    ensures
      ReadU32(s, at)
      == s[at] as int * 0x100_0000 + s[at + 1] as int * 0x1_0000 + s[at + 2] as int * 0x100 + s[at + 3] as int
  {
  }

  lemma SliceOfSlice(s: seq<byte>, at: nat, n: nat, i: nat, j: nat)
    requires at + n <= |s| && i <= j <= n
    ensures s[at..at + n][i..j] == s[at + i..at + j]
  {
    var u, v := s[at..at + n][i..j], s[at + i..at + j];
    forall k | 0 <= k < j - i
      ensures u[k] == v[k]
    {
      assert s[at..at + n][i + k] == s[at + (i + k)];
    }
  }

  /** s holds the bytes w at `at`. */
  ghost predicate Holds(s: seq<byte>, at: nat, w: seq<byte>) {
    at + |w| <= |s| && s[at..at + |w|] == w
  }

  lemma HoldsPart(s: seq<byte>, at: nat, w: seq<byte>, i: nat, j: nat)
    requires Holds(s, at, w) && i <= j <= |w|
    ensures Holds(s, at + i, w[i..j])
  {
    SliceOfSlice(s, at, |w|, i, j);
  }

  lemma HoldsBoth(s: seq<byte>, at: nat, u: seq<byte>, v: seq<byte>)
    requires Holds(s, at, u + v)
    ensures Holds(s, at, u) && Holds(s, at + |u|, v)
  {
    HoldsPart(s, at, u + v, 0, |u|);
    HoldsPart(s, at, u + v, |u|, |u| + |v|);
    assert (u + v)[0..|u|] == u && (u + v)[|u|..|u| + |v|] == v;
  }

  lemma ReadWrittenU16(s: seq<byte>, at: nat, v: u16)
    requires at + 2 <= |s| && s[at..at + 2] == BeU16(v)
    ensures ReadU16(s, at) == v
  {
    assert s[at] == s[at..at + 2][0] && s[at + 1] == s[at..at + 2][1];
  }

  lemma ReadWrittenU32(s: seq<byte>, at: nat, v: u32)
    requires at + 4 <= |s| && s[at..at + 4] == BeU32(v)
    ensures ReadU32(s, at) == v
  {
    assert s[at..at + 2] == s[at..at + 4][..2] && s[at + 2..at + 4] == s[at..at + 4][2..];
    ReadWrittenU16(s, at, HighHalf(v));
    ReadWrittenU16(s, at + 2, LowHalf(v));
  }

  lemma WriteReadU16(s: seq<byte>, at: nat)
    requires at + 2 <= |s|
    ensures BeU16(ReadU16(s, at)) == s[at..at + 2]
  {
  }

  lemma WriteReadU32(s: seq<byte>, at: nat)
    requires at + 4 <= |s|
    ensures BeU32(ReadU32(s, at)) == s[at..at + 4]
  {
    WriteReadU16(s, at);
    WriteReadU16(s, at + 2);
    assert s[at..at + 4] == s[at..at + 2] + s[at + 2..at + 4];
  }

  // ---- Writing into a buffer ---------------------------------------------------------

  /** s with the bytes w written over it at `at`. */
  function Splice(s: seq<byte>, at: nat, w: seq<byte>): (r: seq<byte>)
    requires at + |w| <= |s|
    ensures |r| == |s|
    ensures forall k :: 0 <= k < |s| ==> r[k] == if at <= k < at + |w| then w[k - at] else s[k]
  {
    s[..at] + w + s[at + |w|..]
  }

  /** Writing behind `start` is writing into the rest of the buffer. */
  lemma SpliceTail(s: seq<byte>, start: nat, at: nat, w: seq<byte>)
    requires start + at + |w| <= |s|
    ensures Splice(s, start + at, w)[..start] == s[..start]
    ensures Splice(s, start + at, w)[start..] == Splice(s[start..], at, w)
  {
  }

  lemma SpliceNothing(s: seq<byte>, at: nat)
    requires at <= |s|
    ensures Splice(s, at, []) == s
  {
  }

  lemma SpliceTwice(s: seq<byte>, at: nat, u: seq<byte>, v: seq<byte>)
    requires at + |u| + |v| <= |s|
    ensures Splice(Splice(s, at, u), at + |u|, v) == Splice(s, at, u + v)
  {
  }

  lemma SpliceBefore(s: seq<byte>, front: seq<byte>, back: seq<byte>)
    requires |front| + |back| <= |s|
    ensures Splice(Splice(s, |front|, back), 0, front) == Splice(s, 0, front + back)
  {
  }

  lemma SpliceMiddle(front: seq<byte>, u: seq<byte>, back: seq<byte>, v: seq<byte>)
    requires |u| == |v|
    ensures Splice(front + u + back, |front|, v) == front + v + back
  {
  }

  lemma SpliceOver(s: seq<byte>, at: nat, u: seq<byte>, v: seq<byte>)
    requires |u| == |v| && at + |u| <= |s|
    ensures Splice(Splice(s, at, u), at, v) == Splice(s, at, v)
  {
  }

  method WriteBytes(a: array<byte>, at: nat, w: seq<byte>)
    requires at + |w| <= a.Length
    modifies a
    ensures a[..] == Splice(old(a[..]), at, w)
  {
    for i := 0 to |w|
      invariant a[..] == Splice(old(a[..]), at, w[..i])
    {
      a[at + i] := w[i];
    }
    assert w[..|w|] == w;
  }

  method WriteU16(a: array<byte>, at: nat, v: u16)
    requires at + 2 <= a.Length
    modifies a
    ensures a[..] == Splice(old(a[..]), at, BeU16(v))
  {
    a[at] := HighByte(v);
    a[at + 1] := LowByte(v);
  }

  method WriteU32(a: array<byte>, at: nat, v: u32)
    requires at + 4 <= a.Length
    modifies a
    ensures a[..] == Splice(old(a[..]), at, BeU32(v))
  {
    WriteU16(a, at, HighHalf(v));
    WriteU16(a, at + 2, LowHalf(v));
  }

  // ---- Damage ---------------------------------------------------------------------------

  /** p and q are equally long and differ at most inside the n bytes from `lo`. */
  ghost predicate DifferInside(p: seq<byte>, q: seq<byte>, lo: nat, n: nat) {
    && |p| == |q| && lo + n <= |p|
    && (forall k :: 0 <= k < |p| && !(lo <= k < lo + n) ==> p[k] == q[k])
  }

  lemma SplitWindow(p: seq<byte>, q: seq<byte>, lo: nat, n: nat)
    requires DifferInside(p, q, lo, n)
    ensures p == p[..lo] + p[lo..lo + n] + p[lo + n..]
    ensures q == p[..lo] + q[lo..lo + n] + p[lo + n..]
    ensures p == q <==> p[lo..lo + n] == q[lo..lo + n]
  {
    assert q[..lo] == p[..lo] && q[lo + n..] == p[lo + n..];
  }
}
