/** TP segments as messages: what a receiver reads in them, and how they travel on a byte stream. */
module TpStream {
  import opened Bytes
  import opened Header
  import opened Tp
  import opened TpAssembler
  import opened TpRun
  import F = Framer

  // ---- A segment as a message ------------------------------------------------------------------------

  lemma TpFlag(t: byte)
    ensures WithTp(t) / 32 % 2 == 1 && WithTp(t) % 32 == t % 32 && WithTp(t) / 64 == t / 64
  {
  }

  lemma SegmentHeaderIs(hdr: seq<byte>, size: nat)
    requires |hdr| == HEADER_SIZE
    ensures
      ReadHeader(SegmentHeader(hdr, size))
      == ReadHeader(hdr).(kind := WithTp(hdr[14]), length := (12 + size) % 0x1_0000_0000)
  {
    hide ReadU16, ReadU32, BeU32;
    var length: u32 := (12 + size) % 0x1_0000_0000;
    var typed := hdr[14 := WithTp(hdr[14])];
    var r := SegmentHeader(hdr, size);
    assert r[4..8] == BeU32(length);
    ReadWrittenU32(r, 4, length);
    SameU16(hdr, r, 0);
    SameU16(hdr, r, 2);
    SameU16(hdr, r, 8);
    SameU16(hdr, r, 10);
  }

  lemma ReadsFront(front: seq<byte>, rest: seq<byte>)
    requires |front| == HEADER_SIZE
    ensures ReadHeader(front + rest) == ReadHeader(front)
  {
    hide ReadU16, ReadU32;
    SameU16(front, front + rest, 0);
    SameU16(front, front + rest, 2);
    SameU32(front, front + rest, 4);
    SameU16(front, front + rest, 8);
    SameU16(front, front + rest, 10);
  }

  /**
  Every segment carries the sender's header, with bit 5 of the message type set and the length of the
  segment, then its offset and whether more follow, then its piece of the payload.
  */
  lemma SegmentCarries(t: Transmission, k: nat)
    requires t.Formed() && k < |t.Parts()|
    ensures
      var wire, piece := t.Wire(k), t.Parts()[k];
      |wire| == 20 + |piece.data| && wire[20..] == piece.data
    ensures
      var wire, h := t.Wire(k), ReadHeader(t.hdr);
      var s := ReadHeader(wire);
      && s == h.(kind := s.kind, length := (|wire| - 8) % 0x1_0000_0000)
      && s.kind / 32 % 2 == 1 && s.kind % 32 == h.kind % 32 && s.kind / 64 == h.kind / 64
    ensures ReadTpHeader(t.Wire(k), 16) == TpHeader(t.Parts()[k].offset % 0x1000_0000, k + 1 < |t.Parts()|)
  {
    hide Pieces, KeyOf, ReadHeader, ReadTpHeader, SegmentHeader, WithTp;
    var piece := t.Parts()[k];
    var rest := BeU32(TpWord(TpHeader(piece.offset, k + 1 < |t.Parts()|))) + piece.data;
    SegmentReads(t.hdr, piece, k + 1 < |t.Parts()|);
    assert t.Wire(k) == SegmentHeader(t.hdr, |piece.data|) + rest;
    ReadsFront(SegmentHeader(t.hdr, |piece.data|), rest);
    SegmentHeaderIs(t.hdr, |piece.data|);
    TpFlag(t.hdr[14]);
    KindOf(t.hdr);
  }

  lemma KindOf(hdr: seq<byte>)
    requires |hdr| == HEADER_SIZE
    ensures ReadHeader(hdr).kind == hdr[14]
  {
  }

  /** The offset in the upper 28 bits, the flag in the lowest bit, three reserved bits between them, sent as 0. */
  lemma TpHeaderBits(h: TpHeader, s: seq<byte>, at: nat)
    requires at + 4 <= |s|
    ensures
      var w := BeU32(TpWord(h));
      && w[3] as int % 16 == (if h.more then 1 else 0)
      && w[0] as int * 0x10_0000 + w[1] as int * 0x1000 + w[2] as int * 16 + w[3] as int / 16 == h.offset % 0x1000_0000
    ensures ReadTpHeader(s, at).more <==> s[at + 3] % 2 == 1
    ensures
      ReadTpHeader(s, at).offset
      == s[at] as int * 0x10_0000 + s[at + 1] as int * 0x1000 + s[at + 2] as int * 16 + s[at + 3] as int / 16
  {
    BigEndian32(TpWord(h));
    ReadsBigEndian(s, at);
  }

  /** The ids that tell streams apart: service, method, client and session. */
  lemma KeyIsIds(a: seq<byte>, b: seq<byte>)
    requires |a| >= HEADER_SIZE && |b| >= HEADER_SIZE
    ensures KeyOf(a) == KeyOf(b) <==> a[0..4] == b[0..4] && a[8..12] == b[8..12]
  {
    hide ReadU16, BeU16;
    WriteReadU16(a, 0);
    WriteReadU16(a, 2);
    WriteReadU16(a, 8);
    WriteReadU16(a, 10);
    WriteReadU16(b, 0);
    WriteReadU16(b, 2);
    WriteReadU16(b, 8);
    WriteReadU16(b, 10);
    assert a[0..4] == a[0..2] + a[2..4] && b[0..4] == b[0..2] + b[2..4];
    assert a[8..12] == a[8..10] + a[10..12] && b[8..12] == b[8..10] + b[10..12];
    if a[0..4] == b[0..4] && a[8..12] == b[8..12] {
      KeyFromIds(a, b);
    }
  }

  lemma KeyFromIds(a: seq<byte>, b: seq<byte>)
    requires |a| >= HEADER_SIZE && |b| >= HEADER_SIZE && a[0..4] == b[0..4] && a[8..12] == b[8..12]
    ensures KeyOf(a) == KeyOf(b)
  {
    hide ReadU16;
    assert forall k :: 0 <= k < 4 ==> a[k] == a[0..4][k] && b[k] == b[0..4][k];
    assert forall k :: 8 <= k < 12 ==> a[k] == a[8..12][k - 8] && b[k] == b[8..12][k - 8];
    SameU16(a, b, 0);
    SameU16(a, b, 2);
    SameU16(a, b, 8);
    SameU16(a, b, 10);
  }

  // ---- The sizes of the pieces --------------------------------------------------------------------------

  /** Every piece but the last has exactly the given size, the last one what is left of the payload. */
  lemma {:induction false} PieceSizes(payload: seq<byte>, from: nat, max: nat, k: nat)
    requires from <= |payload| && max >= 1 && k < |Pieces(payload, from, max)|
    ensures
      var ps := Pieces(payload, from, max);
      && ps[k].offset == from + k * max < |payload|
      && |ps[k].data| == (if k < |ps| - 1 then max else |payload| - ps[k].offset)
      && 1 <= |ps[k].data| <= max
    decreases k
  {
    FirstPiece(payload, from, max);
    if k > 0 {
      hide Pieces;
      var ps, rest := Pieces(payload, from, max), Pieces(payload, from + max, max);
      assert ps[k] == rest[k - 1];
      PieceSizes(payload, from + max, max, k - 1);
      OneMoreTime(k, max);
    }
  }

  lemma FirstPiece(payload: seq<byte>, from: nat, max: nat)
    requires from < |payload| && max >= 1
    ensures
      var ps := Pieces(payload, from, max);
      && |ps| > 0 && ps[0].offset == from && 1 <= |ps[0].data| <= max
      && |ps[0].data| == (if |ps| > 1 then max else |payload| - from)
      && (|ps| > 1 ==> from + max <= |payload| && ps[1..] == Pieces(payload, from + max, max))
  {
    PiecesUnfold(payload, from, max);
  }

  lemma OneMoreTime(k: nat, max: nat)
    requires k > 0
    ensures max + (k - 1) * max == k * max
  {
  }

  // ---- Segments on a byte stream --------------------------------------------------------------------------

  /** A segment is framed as one message exactly if the framer can hold it; it is never taken for a cookie. */
  lemma SegmentFrames(t: Transmission, k: nat)
    requires t.Formed() && k < |t.Parts()|
    ensures F.WellFormed(F.Emitted(t.Wire(k))) <==> |t.Wire(k)| <= 4_194_304
  {
    hide Pieces, Transmission.Wire, ReadTpHeader, ReadU16;
    SegmentCarries(t, k);
    PartsExist(t);
    TilesAt(t.Parts(), 0, t.payload, k);
  }

  function Wires(t: Transmission): (wires: seq<seq<byte>>)
    requires t.Formed()
    ensures |wires| == |t.Parts()|
  {
    seq(|t.Parts()|, k requires 0 <= k < |t.Parts()| => t.Wire(k))
  }

  function Items(wires: seq<seq<byte>>): (items: seq<F.Item>)
    ensures |items| == |wires|
  {
    seq(|wires|, k requires 0 <= k < |wires| => F.Emitted(wires[k]))
  }

  function Concat(wires: seq<seq<byte>>): seq<byte>
    decreases |wires|
  {
    if |wires| == 0 then [] else wires[0] + Concat(wires[1..])
  }

  lemma {:induction false} ItemsOf(wires: seq<seq<byte>>)
    ensures F.AllBytes(Items(wires)) == Concat(wires) && F.Messages(Items(wires)) == wires
    decreases |wires|
  {
    if |wires| > 0 {
      ItemsOf(wires[1..]);
      assert Items(wires)[1..] == Items(wires[1..]);
      assert [wires[0]] + wires[1..] == wires;
    }
  }

  /** What the assembler says to messages, one after the other. */
  function Results(streams: map<Key, Stream>, messages: seq<seq<byte>>): seq<FeedResult>
    requires forall i :: 0 <= i < |messages| ==> |messages[i]| >= HEADER_SIZE
    decreases |messages|
  {
    if |messages| == 0 then []
    else
      var (streams', result) := Fed(streams, messages[0], messages[0]);
      [result] + Results(streams', messages[1..])
  }

  lemma WiresAreMessages(t: Transmission)
    requires t.Formed()
    ensures forall i :: 0 <= i < |Wires(t)| ==> |Wires(t)[i]| >= HEADER_SIZE
  {
    forall i | 0 <= i < |Wires(t)|
      ensures |Wires(t)[i]| >= HEADER_SIZE
    {
      SegmentCarries(t, i);
    }
  }

  ghost function InSequence(n: nat): (order: seq<nat>)
    ensures |order| == n && forall i :: 0 <= i < n ==> order[i] == i
  {
    seq(n, i requires 0 <= i < n => i)
  }

  lemma InSequenceIsAll(t: Transmission)
    requires t.Formed()
    ensures Distinct(InSequence(|t.Parts()|)) && SetOf(InSequence(|t.Parts()|)) == t.All()
  {
    var order := InSequence(|t.Parts()|);
    forall k: nat
      ensures k in SetOf(order) <==> k in t.All()
    {
      assert k < |t.Parts()| ==> order[k] == k;
    }
  }

  lemma {:induction false} FedInSequence(streams: map<Key, Stream>, t: Transmission, order: seq<nat>, from: nat)
    requires t.Formed() && from <= |t.Parts()| && order == InSequence(|t.Parts()|)[from..]
    requires Underway(map[KeyOf(t.hdr) := t])
    requires Arrivals(map[KeyOf(t.hdr) := t], ArrivalsOf(KeyOf(t.hdr), order))
    requires forall i :: 0 <= i < |Wires(t)[from..]| ==> |Wires(t)[from..][i]| >= HEADER_SIZE
    ensures Results(streams, Wires(t)[from..])
         == FedAll(streams, map[KeyOf(t.hdr) := t], ArrivalsOf(KeyOf(t.hdr), order))
    decreases |order|
  {
    hide Fed, KeyOf, Underway, Transmission.Wire, Transmission.Parts;
    if |order| > 0 {
      var key, wires := KeyOf(t.hdr), Wires(t)[from..];
      assert wires[0] == t.Wire(from) && wires[1..] == Wires(t)[from + 1..];
      assert ArrivalsOf(key, order)[1..] == ArrivalsOf(key, order[1..]);
      assert order[1..] == InSequence(|t.Parts()|)[from + 1..];
      FedInSequence(Fed(streams, wires[0], wires[0]).0, t, order[1..], from + 1);
    }
  }

  lemma ValidIsFormed(t: Transmission)
    requires t.Valid()
    ensures t.Formed()
  {
  }

  /**
  From sender to receiver: a payload is cut into segments, the segments are sent on one byte stream, the
  stream arrives in chunks of any sizes, and the framer is asked for messages at any times. Once it is
  drained it has handed out exactly the segments, and the assembler gives the payload with the last of them.
  */
  lemma PayloadCrossesStream(t: Transmission, calls: seq<F.Call>)
    requires t.Valid() && t.max <= 4_194_284
    requires F.Fed(calls) == Concat(Wires(t)) && F.LookAt(F.PendingAfter([], calls)).NeedMore?
    ensures F.Output([], calls) == Wires(t) && F.PendingAfter([], calls) == []
    ensures forall i :: 0 <= i < |Wires(t)| ==> |Wires(t)[i]| >= HEADER_SIZE
    ensures Results(map[], F.Output([], calls)) == Refusals(|Wires(t)| - 1) + [Complete(t.payload)]
  {
    hide KeyOf, FedAll, F.Output, F.PendingAfter, F.LookAt, F.WellFormed, Transmission.Valid, Distinct, SetOf;
    ValidIsFormed(t);
    var items := Items(Wires(t));
    forall k | 0 <= k < |items|
      ensures F.WellFormed(items[k])
    {
      SegmentCarries(t, k);
      PieceSizes(t.payload, 0, t.max, k);
      SegmentFrames(t, k);
    }
    ItemsOf(Wires(t));
    F.FramesBack(items, calls);
    var order := InSequence(|t.Parts()|);
    InSequenceIsAll(t);
    AnyOrderReassembles(t, order);
    WiresAreMessages(t);
    assert order[0..] == order && Wires(t)[0..] == Wires(t);
    FedInSequence(map[], t, order, 0);
  }
}
