/** SOME/IP-TP reassembly: many streams at once, segments in any order. */
module TpAssembler {
  import opened Bytes
  import opened Header
  import opened Tp
  import opened Wrappers

  /** Identifies a message being reassembled. */
  datatype Key = Key(service: u16, method_: u16, client: u16, session: u16)

  function KeyOf(hdr: seq<byte>): Key
    requires |hdr| >= HEADER_SIZE
  {
    Key(ReadU16(hdr, 0), ReadU16(hdr, 2), ReadU16(hdr, 8), ReadU16(hdr, 10))
  }

  /** Fragments are kept in an ordered map: here a list sorted by offset. */
  datatype Stream = Stream(fragments: seq<Fragment>, finalOffset: u32)

  const EMPTY := Stream([], 0)

  datatype FeedResult = Complete(payload: seq<byte>) | BufferTooSmall | InvalidLength

  /** Insert or overwrite an entry of the ordered map. */
  function Put(fs: seq<Fragment>, f: Fragment): (r: seq<Fragment>)
    decreases |fs|
  {
    if |fs| == 0 || f.offset < fs[0].offset then [f] + fs
    else if f.offset == fs[0].offset then [f] + fs[1..]
    else [fs[0]] + Put(fs[1..], f)
  }

  predicate Ascending(fs: seq<Fragment>)
    decreases |fs|
  {
    |fs| <= 1 || (fs[0].offset < fs[1].offset && Ascending(fs[1..]))
  }

  /** The data stored for an offset. */
  function DataAt(fs: seq<Fragment>, offset: nat): Option<seq<byte>>
    decreases |fs|
  {
    if |fs| == 0 then None
    else if fs[0].offset == offset then Some(fs[0].data)
    else DataAt(fs[1..], offset)
  }

  /** The list behaves as an ordered map: it stays sorted, the new entry is found, all others are as before. */
  lemma {:induction false} PutIsMap(fs: seq<Fragment>, f: Fragment, offset: nat)
    requires Ascending(fs)
    ensures Ascending(Put(fs, f))
    ensures DataAt(Put(fs, f), offset) == if offset == f.offset then Some(f.data) else DataAt(fs, offset)
    decreases |fs|
  {
    if |fs| == 0 || f.offset < fs[0].offset {
      assert ([f] + fs)[1..] == fs;
    } else if f.offset == fs[0].offset {
      assert ([f] + fs[1..])[1..] == fs[1..];
    } else {
      PutIsMap(fs[1..], f, offset);
      assert Put(fs, f)[1..] == Put(fs[1..], f);
    }
  }

  /** Walk the fragments in order; every one must start where the previous one ended. */
  function Assembled(fs: seq<Fragment>, expected: nat, final: nat): Option<seq<byte>>
    decreases |fs|
  {
    if |fs| == 0 then (if expected == final then Some([]) else None)
    else if fs[0].offset != expected then None
    else match Assembled(fs[1..], expected + |fs[0].data|, final)
      case None => None
      case Some(rest) => Some(fs[0].data + rest)
  }

  /** The bytes that the walk writes lie inside the result buffer (the code does not check). */
  predicate InBounds(fs: seq<Fragment>, expected: nat, final: nat)
    decreases |fs|
  {
    |fs| > 0 && fs[0].offset == expected ==>
      expected + |fs[0].data| <= final && InBounds(fs[1..], expected + |fs[0].data|, final)
  }

  function Stored(stream: Stream, h: TpHeader, data: seq<byte>): Stream {
    Stream(Put(stream.fragments, Fragment(h.offset, data)),
           if h.more then stream.finalOffset else (h.offset + |data|) % TWO32)
  }

  function StreamAfter(streams: map<Key, Stream>, hdr: seq<byte>, segment: seq<byte>): Stream
    requires |hdr| >= HEADER_SIZE && |segment| >= HEADER_SIZE + TP_HEADER_SIZE
  {
    Stored(if KeyOf(hdr) in streams then streams[KeyOf(hdr)] else EMPTY,
           ReadTpHeader(segment, HEADER_SIZE), segment[HEADER_SIZE + TP_HEADER_SIZE..])
  }

  /** The table and the result after one segment. */
  function Fed(streams: map<Key, Stream>, hdr: seq<byte>, segment: seq<byte>): (map<Key, Stream>, FeedResult)
    requires |hdr| >= HEADER_SIZE
  {
    if |segment| < HEADER_SIZE + TP_HEADER_SIZE then (streams, BufferTooSmall)
    else
      var key, stream := KeyOf(hdr), StreamAfter(streams, hdr, segment);
      if stream.finalOffset == 0 then (streams[key := stream], InvalidLength)
      else match Assembled(stream.fragments, 0, stream.finalOffset)
        case None => (streams[key := stream], InvalidLength)
        case Some(payload) => (streams - {key}, Complete(payload))
  }

  predicate Writable(streams: map<Key, Stream>, hdr: seq<byte>, segment: seq<byte>)
    requires |hdr| >= HEADER_SIZE
  {
    |segment| >= HEADER_SIZE + TP_HEADER_SIZE ==>
      var stream := StreamAfter(streams, hdr, segment);
      stream.finalOffset != 0 ==> InBounds(stream.fragments, 0, stream.finalOffset)
  }

  /** The result of the walk with the bytes gathered so far in front. */
  function Prepend(front: seq<byte>, rest: Option<seq<byte>>): Option<seq<byte>> {
    match rest
    case None => None
    case Some(bytes) => Some(front + bytes)
  }

  lemma WalkStarts(fs: seq<Fragment>, final: nat)
    ensures fs[0..] == fs && Prepend([], Assembled(fs, 0, final)) == Assembled(fs, 0, final)
  {
    if Assembled(fs, 0, final).Some? {
      assert [] + Assembled(fs, 0, final).value == Assembled(fs, 0, final).value;
    }
  }

  lemma WalkContinues(fs: seq<Fragment>, i: nat, expected: nat, final: nat, front: seq<byte>)
    requires i < |fs| && fs[i].offset == expected && InBounds(fs[i..], expected, final)
    ensures expected + |fs[i].data| <= final && InBounds(fs[i + 1..], expected + |fs[i].data|, final)
    ensures Prepend(front, Assembled(fs[i..], expected, final))
         == Prepend(front + fs[i].data, Assembled(fs[i + 1..], expected + |fs[i].data|, final))
  {
    assert fs[i..][0] == fs[i] && fs[i..][1..] == fs[i + 1..];
    match Assembled(fs[i + 1..], expected + |fs[i].data|, final) {
      case None =>
      case Some(rest) => assert front + fs[i].data + rest == front + (fs[i].data + rest);
    }
  }

  lemma WalkStops(fs: seq<Fragment>, i: nat, expected: nat, final: nat)
    requires i <= |fs| && (i < |fs| ==> fs[i].offset != expected)
    ensures Assembled(fs[i..], expected, final) == if i == |fs| && expected == final then Some([]) else None
  {
    if i < |fs| {
      assert fs[i..][0] == fs[i];
    }
  }

  /** Assembly: copy the fragments into a buffer of the final size, stopping at the first gap. */
  method Assemble(fs: seq<Fragment>, final: u32) returns (result: Option<seq<byte>>)
    requires InBounds(fs, 0, final)
    ensures result == Assembled(fs, 0, final)
  {
    hide Assembled, InBounds;
    var buffer := new byte[final](_ => 0);
    var expected: nat := 0;
    ghost var all := Assembled(fs, 0, final);
    WalkStarts(fs, final);
    for i := 0 to |fs|
      invariant expected <= final && InBounds(fs[i..], expected, final)
      invariant all == Prepend(buffer[..expected], Assembled(fs[i..], expected, final))
    {
      if fs[i].offset != expected {
        WalkStops(fs, i, expected, final);
        return None;
      }
      WalkContinues(fs, i, expected, final, buffer[..expected]);
      ghost var before := buffer[..];
      WriteBytes(buffer, expected, fs[i].data);
      assert buffer[..expected + |fs[i].data|] == before[..expected] + fs[i].data;
      expected := (expected + |fs[i].data|) % TWO32;
    }
    WalkStops(fs, |fs|, expected, final);
    if expected != final { return None; }
    assert buffer[..expected] + [] == buffer[..];
    return Some(buffer[..]);
  }

  class Assembler {
    var streams: map<Key, Stream>

    constructor ()
      ensures streams == map[]
    {
      streams := map[];
    }

    method Feed(hdr: seq<byte>, segment: seq<byte>) returns (result: FeedResult)
      requires |hdr| >= HEADER_SIZE && Writable(streams, hdr, segment)
      modifies this
      ensures (streams, result) == Fed(old(streams), hdr, segment)
    {
      hide ReadU16, ReadTpHeader, Put, Assembled, InBounds;
      var key := KeyOf(hdr);
      if |segment| < HEADER_SIZE + TP_HEADER_SIZE { return BufferTooSmall; }
      var h := ReadTpHeader(segment, HEADER_SIZE);
      var stream := if key in streams then streams[key] else EMPTY;
      var data := segment[HEADER_SIZE + TP_HEADER_SIZE..];
      stream := stream.(fragments := Put(stream.fragments, Fragment(h.offset, data)));
      if !h.more {
        stream := stream.(finalOffset := (h.offset + |data|) % TWO32);
      }
      streams := streams[key := stream];
      if stream.finalOffset == 0 { return InvalidLength; }
      var assembled := Assemble(stream.fragments, stream.finalOffset);
      if assembled.None? { return InvalidLength; }
      streams := streams - {key};
      assert streams == old(streams) - {key};
      return Complete(assembled.value);
    }
  }
}
