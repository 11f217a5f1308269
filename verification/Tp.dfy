/** SOME/IP-TP: splitting a payload into segments and putting it together again. */
module Tp {
  import opened Bytes
  import opened Header

  const TP_HEADER_SIZE := 4
  const TWO28 := 0x1000_0000

  // ---- The TP header ---------------------------------------------------------------------

  datatype TpHeader = TpHeader(offset: nat, more: bool)

  /** The offset field has 28 bits. */
  function Offset28(offset: nat): (cut: nat)
    ensures cut < TWO28
  {
    offset % TWO28
  }

  /** The byte offset sits in the upper 28 bits of the word, the more-segments flag in bit 0. */
  function TpWord(h: TpHeader): u32 {
    Offset28(h.offset) * 16 + if h.more then 1 else 0
  }

  function ReadTpHeader(s: seq<byte>, at: nat): TpHeader
    requires at + TP_HEADER_SIZE <= |s|
  {
    var raw := ReadU32(s, at);
    TpHeader(raw / 16, raw % 2 == 1)
  }

  lemma TpHeaderRoundTrip(s: seq<byte>, at: nat, h: TpHeader)
    requires at + TP_HEADER_SIZE <= |s| && s[at..at + TP_HEADER_SIZE] == BeU32(TpWord(h))
    ensures ReadTpHeader(s, at) == TpHeader(Offset28(h.offset), h.more)
  {
    hide ReadU32, BeU32, Offset28;
    ReadWrittenU32(s, at, TpWord(h));
  }

  // ---- Segmentation ------------------------------------------------------------------------

  datatype Fragment = Fragment(offset: nat, data: seq<byte>)

  /** The consecutive pieces of the payload from `from`, each of at most `max` bytes. */
  function Pieces(payload: seq<byte>, from: nat, max: nat): (ps: seq<Fragment>)
    requires from <= |payload| && max >= 1
    decreases |payload| - from
  {
    if from == |payload| then []
    else
      var to := if |payload| - from > max then from + max else |payload|;
      [Fragment(from, payload[from..to])] + Pieces(payload, to, max)
  }

  /** `set_msg_type(with_tp(...))`: bit 5 of the message type. */
  function WithTp(t: byte): byte {
    if t / 0x20 % 2 == 1 then t else t + 0x20
  }

  function SegmentHeader(hdr: seq<byte>, size: nat): (r: seq<byte>)
    requires |hdr| == HEADER_SIZE
    ensures |r| == HEADER_SIZE
  {
    Splice(hdr[14 := WithTp(hdr[14])], 4, BeU32((8 + TP_HEADER_SIZE + size) % TWO32))
  }

  /** The bytes of one segment. */
  function Segment(hdr: seq<byte>, p: Fragment, more: bool): (r: seq<byte>)
    requires |hdr| == HEADER_SIZE
    ensures |r| == HEADER_SIZE + TP_HEADER_SIZE + |p.data|
  {
    SegmentHeader(hdr, |p.data|) + BeU32(TpWord(TpHeader(p.offset, more))) + p.data
  }

  /** The segments for a list of pieces; all but the last announce more. */
  function Segments(hdr: seq<byte>, ps: seq<Fragment>): (r: seq<seq<byte>>)
    requires |hdr| == HEADER_SIZE
    ensures |r| == |ps|
  {
    seq(|ps|, i requires 0 <= i < |ps| => Segment(hdr, ps[i], i + 1 < |ps|))
  }

  lemma PiecesUnfold(payload: seq<byte>, from: nat, max: nat)
    requires from < |payload| && max >= 1
    ensures var to := if |payload| - from > max then from + max else |payload|;
            && Pieces(payload, from, max) == [Fragment(from, payload[from..to])] + Pieces(payload, to, max)
            && (to < |payload| <==> Pieces(payload, to, max) != [])
  {
  }

  method SegmentMessage(hdr: seq<byte>, payload: seq<byte>, max: nat) returns (segments: seq<seq<byte>>)
    requires |hdr| == HEADER_SIZE && max >= 1
    ensures segments == Segments(hdr, Pieces(payload, 0, max))
  {
    hide Pieces, Segment;
    segments := [];
    ghost var ps := Pieces(payload, 0, max);
    var offset := 0;
    while offset < |payload|
      invariant offset <= |payload| && |segments| <= |ps|
      invariant ps[|segments|..] == Pieces(payload, offset, max)
      invariant forall i :: 0 <= i < |segments| ==> segments[i] == Segment(hdr, ps[i], i + 1 < |ps|)
    {
      var remaining := |payload| - offset;
      var chunk := if remaining > max then max else remaining;
      var more := offset + chunk < |payload|;
      PiecesUnfold(payload, offset, max);
      assert ps[|segments|] == ps[|segments|..][0];
      assert ps[|segments| + 1..] == ps[|segments|..][1..];
      var data := BuildSegment(hdr, payload[offset..offset + chunk], offset, more);
      segments := segments + [data];
      offset := offset + chunk;
    }
    NoPieces(payload, max);
  }

  lemma NoPieces(payload: seq<byte>, max: nat)
    requires max >= 1
    ensures Pieces(payload, |payload|, max) == []
  {
  }

  method BuildSegment(hdr: seq<byte>, data: seq<byte>, offset: nat, more: bool) returns (segment: seq<byte>)
    requires |hdr| == HEADER_SIZE
    ensures segment == Segment(hdr, Fragment(offset, data), more)
  {
    hide ReadHeader, BeU32, TpWord, WithTp;
    var buf := new byte[HEADER_SIZE + TP_HEADER_SIZE + |data|](_ => 0);
    WriteBytes(buf, 0, hdr);
    var view := new HeaderView(buf);
    view.SetByte(14, WithTp(buf[14]));
    view.SetLength((8 + TP_HEADER_SIZE + |data|) % TWO32);
    assert buf[..HEADER_SIZE] == SegmentHeader(hdr, |data|);
    WriteU32(buf, HEADER_SIZE, TpWord(TpHeader(offset, more)));
    WriteBytes(buf, HEADER_SIZE + TP_HEADER_SIZE, data);
    segment := buf[..];
    assert segment[..HEADER_SIZE] == SegmentHeader(hdr, |data|);
    assert segment[HEADER_SIZE..HEADER_SIZE + TP_HEADER_SIZE] == BeU32(TpWord(TpHeader(offset, more)));
    assert segment[HEADER_SIZE + TP_HEADER_SIZE..] == data;
  }
}
