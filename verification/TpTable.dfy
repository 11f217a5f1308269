/** Reassembly of arbitrary segments, whoever has made them: what the table holds and when it gives out a payload. */
module TpTable {
  import opened Bytes
  import opened Wrappers
  import opened Header
  import opened Tp
  import opened TpAssembler

  // ---- When fragments make up a payload --------------------------------------------------------------

  /** Fragment k ends where the next one starts, or at `to`. */
  predicate LinkedAt(fs: seq<Fragment>, k: nat, to: nat)
    requires k < |fs|
  {
    fs[k].offset + |fs[k].data| == if k + 1 < |fs| then fs[k + 1].offset else to
  }

  /** Every fragment starts where the one before it ends, the first one at `from`, and the last one ends at `to`. */
  ghost predicate Contiguous(fs: seq<Fragment>, from: nat, to: nat) {
    && (if fs == [] then from == to else fs[0].offset == from)
    && forall k: nat :: k < |fs| ==> LinkedAt(fs, k, to)
  }

  /** Each fragment's data stands at its offset. */
  ghost predicate MadeOf(p: seq<byte>, fs: seq<Fragment>, from: nat) {
    forall k :: 0 <= k < |fs| ==> from <= fs[k].offset && Holds(p, fs[k].offset - from, fs[k].data)
  }

  lemma ContiguousRest(fs: seq<Fragment>, from: nat, to: nat)
    requires fs != []
    ensures Contiguous(fs, from, to)
       <==> fs[0].offset == from && Contiguous(fs[1..], from + |fs[0].data|, to)
  {
    var rest := fs[1..];
    assert forall k: nat :: k < |rest| ==> LinkedAt(fs, k + 1, to) == LinkedAt(rest, k, to);
    if fs[0].offset == from && Contiguous(rest, from + |fs[0].data|, to) {
      forall k: nat | k < |fs|
        ensures LinkedAt(fs, k, to)
      {
        if k > 0 {
          assert LinkedAt(rest, k - 1, to);
        }
      }
    }
    if Contiguous(fs, from, to) {
      assert LinkedAt(fs, 0, to);
      forall k: nat | k < |rest|
        ensures LinkedAt(rest, k, to)
      {
        assert LinkedAt(fs, k + 1, to);
      }
    }
  }

  /** Assembly succeeds exactly if the fragments are contiguous from 0 to the end, all of them included. */
  lemma {:induction false} AssembledExactly(fs: seq<Fragment>, from: nat, to: nat)
    ensures Assembled(fs, from, to).Some? <==> Contiguous(fs, from, to)
    ensures Assembled(fs, from, to).Some? ==>
      var p := Assembled(fs, from, to).value;
      from + |p| == to && MadeOf(p, fs, from)
    decreases |fs|
  {
    hide Contiguous, MadeOf;
    if fs == [] {
      Nothing(from, to);
    } else {
      ContiguousRest(fs, from, to);
      AssembledExactly(fs[1..], from + |fs[0].data|, to);
      if Assembled(fs, from, to).Some? {
        var rest := Assembled(fs[1..], from + |fs[0].data|, to).value;
        MadeOfMore(fs, rest, from);
      }
    }
  }

  lemma Nothing(from: nat, to: nat)
    ensures Contiguous([], from, to) <==> from == to
    ensures MadeOf([], [], from)
  {
  }

  lemma MadeOfMore(fs: seq<Fragment>, rest: seq<byte>, from: nat)
    requires fs != [] && fs[0].offset == from && MadeOf(rest, fs[1..], from + |fs[0].data|)
    ensures MadeOf(fs[0].data + rest, fs, from)
  {
    hide Holds;
    var data, p := fs[0].data, fs[0].data + rest;
    InFront(data, rest);
    forall k | 0 <= k < |fs|
      ensures from <= fs[k].offset && Holds(p, fs[k].offset - from, fs[k].data)
    {
      if k > 0 {
        var g := fs[1..][k - 1];
        assert g == fs[k] && Holds(rest, g.offset - (from + |data|), g.data);
        Behind(data, rest, g.offset - (from + |data|), g.data);
      }
    }
  }

  lemma InFront(front: seq<byte>, rest: seq<byte>)
    ensures Holds(front + rest, 0, front)
  {
  }

  lemma Behind(front: seq<byte>, rest: seq<byte>, at: nat, w: seq<byte>)
    requires Holds(rest, at, w)
    ensures Holds(front + rest, |front| + at, w)
  {
    assert (front + rest)[|front| + at..|front| + at + |w|] == rest[at..at + |w|];
  }

  // ---- What the table holds ----------------------------------------------------------------------------

  /** The data of the last segment with this offset. */
  function LatestAt(segments: seq<seq<byte>>, offset: nat): Option<seq<byte>>
    requires forall i :: 0 <= i < |segments| ==> |segments[i]| >= 20
  {
    if |segments| == 0 then None
    else
      var last := segments[|segments| - 1];
      if ReadTpHeader(last, 16).offset == offset then Some(last[20..]) else LatestAt(segments[..|segments| - 1], offset)
  }

  /** Where the last segment that announces no more ends, on 32 bits; 0 without such a segment. */
  function LatestEnd(segments: seq<seq<byte>>): nat
    requires forall i :: 0 <= i < |segments| ==> |segments[i]| >= 20
  {
    if |segments| == 0 then 0
    else
      var last := segments[|segments| - 1];
      var h := ReadTpHeader(last, 16);
      if h.more then LatestEnd(segments[..|segments| - 1]) else (h.offset + |last| - 20) % 0x1_0000_0000
  }

  /** The entry of a key after these segments: for every offset the latest data, and the latest end. */
  ghost predicate HoldsLatest(streams: map<Key, Stream>, key: Key, segments: seq<seq<byte>>)
    requires forall i :: 0 <= i < |segments| ==> |segments[i]| >= 20
  {
    && (key in streams <==> segments != [])
    && (key in streams ==>
      && Ascending(streams[key].fragments) && streams[key].finalOffset == LatestEnd(segments)
      && forall offset: nat :: DataAt(streams[key].fragments, offset) == LatestAt(segments, offset))
  }

  /**
  A segment for any message, well-formed or not. It is refused if it is too short for its two headers.
  Otherwise the entry of its key then holds, for every offset, the data received for it last, and the payload
  is given out exactly if an end other than 0 is known and all of these data are contiguous from 0 up to it;
  the entry is then removed. Other entries stay as they are.
  */
  lemma AnySegment(streams: map<Key, Stream>, segments: seq<seq<byte>>, segment: seq<byte>)
    requires |segment| >= 16 && forall i :: 0 <= i < |segments| ==> |segments[i]| >= 20
    requires HoldsLatest(streams, KeyOf(segment), segments)
    ensures |segment| < 20 ==> Fed(streams, segment, segment) == (streams, BufferTooSmall)
    ensures |segment| >= 20 ==>
      var (streams', result) := Fed(streams, segment, segment);
      var now, stream := segments + [segment], StreamAfter(streams, segment, segment);
      && streams' - {KeyOf(segment)} == streams - {KeyOf(segment)}
      && Ascending(stream.fragments) && stream.finalOffset == LatestEnd(now)
      && (forall offset: nat :: DataAt(stream.fragments, offset) == LatestAt(now, offset))
      && if stream.finalOffset != 0 && Contiguous(stream.fragments, 0, stream.finalOffset)
         then
           && result.Complete? && |result.payload| == stream.finalOffset
           && MadeOf(result.payload, stream.fragments, 0) && HoldsLatest(streams', KeyOf(segment), [])
         else result == InvalidLength && HoldsLatest(streams', KeyOf(segment), now)
  {
    hide KeyOf, ReadTpHeader, Put, Assembled, Contiguous, MadeOf, Ascending, DataAt;
    if |segment| >= 20 {
      var stream := StreamAfter(streams, segment, segment);
      SegmentStored(streams, segments, segment);
      AssembledExactly(stream.fragments, 0, stream.finalOffset);
    }
  }

  lemma SegmentStored(streams: map<Key, Stream>, segments: seq<seq<byte>>, segment: seq<byte>)
    requires |segment| >= 20 && forall i :: 0 <= i < |segments| ==> |segments[i]| >= 20
    requires HoldsLatest(streams, KeyOf(segment), segments)
    ensures
      var stream, now := StreamAfter(streams, segment, segment), segments + [segment];
      && Ascending(stream.fragments) && stream.finalOffset == LatestEnd(now)
      && forall offset: nat :: DataAt(stream.fragments, offset) == LatestAt(now, offset)
  {
    hide KeyOf, ReadTpHeader, Put, Ascending, DataAt;
    var now := segments + [segment];
    assert now[..|now| - 1] == segments;
    var before := if KeyOf(segment) in streams then streams[KeyOf(segment)] else EMPTY;
    var f := Fragment(ReadTpHeader(segment, 16).offset, segment[20..]);
    EmptyTable();
    forall offset: nat
      ensures Ascending(Put(before.fragments, f))
      ensures DataAt(Put(before.fragments, f), offset) == LatestAt(now, offset)
    {
      PutIsMap(before.fragments, f, offset);
    }
    PutIsMap(before.fragments, f, 0);
  }

  lemma EmptyTable()
    ensures Ascending([]) && forall offset: nat :: DataAt([], offset) == None
  {
  }

  // ---- Whole runs -----------------------------------------------------------------------------------------

  ghost predicate Headed(messages: seq<seq<byte>>) {
    forall i :: 0 <= i < |messages| ==> |messages[i]| >= 16
  }

  ghost function TableAfter(messages: seq<seq<byte>>): map<Key, Stream>
    requires Headed(messages)
  {
    if |messages| == 0 then map[]
    else
      var n := |messages| - 1;
      Fed(TableAfter(messages[..n]), messages[n], messages[n]).0
  }

  /** The segments for a key that are long enough, since a payload was given out for it. */
  ghost function Since(messages: seq<seq<byte>>, key: Key): (segments: seq<seq<byte>>)
    requires Headed(messages)
    ensures forall i :: 0 <= i < |segments| ==> |segments[i]| >= 20
  {
    if |messages| == 0 then []
    else
      var n := |messages| - 1;
      var m, before := messages[n], Since(messages[..n], key);
      if |m| < 20 || KeyOf(m) != key then before
      else if Fed(TableAfter(messages[..n]), m, m).1.Complete? then []
      else before + [m]
  }

  /**
  Over every run, whatever messages it feeds: the table holds, for every key and offset, the data received
  last for it since a payload was given out for that key, and the end announced last since then.
  */
  lemma {:induction false} TableHoldsLatest(messages: seq<seq<byte>>, key: Key)
    requires Headed(messages)
    ensures HoldsLatest(TableAfter(messages), key, Since(messages, key))
    decreases |messages|
  {
    hide HoldsLatest, Fed, KeyOf, Contiguous, MadeOf, StreamAfter;
    if |messages| == 0 {
      NothingHeld(key);
    } else {
      var n := |messages| - 1;
      var m, table := messages[n], TableAfter(messages[..n]);
      TableHoldsLatest(messages[..n], KeyOf(m));
      AnySegment(table, Since(messages[..n], KeyOf(m)), m);
      if KeyOf(m) != key {
        TableHoldsLatest(messages[..n], key);
        OtherKeyHeld(table, Fed(table, m, m).0, KeyOf(m), key, Since(messages[..n], key));
      }
    }
  }

  lemma NothingHeld(key: Key)
    ensures HoldsLatest(map[], key, [])
  {
  }

  lemma OtherKeyHeld(
      streams: map<Key, Stream>, streams': map<Key, Stream>, fed: Key, key: Key, segments: seq<seq<byte>>)
    requires key != fed && streams' - {fed} == streams - {fed}
    requires forall i :: 0 <= i < |segments| ==> |segments[i]| >= 20
    requires HoldsLatest(streams, key, segments)
    ensures HoldsLatest(streams', key, segments)
  {
    assert key in streams' <==> key in streams' - {fed};
    assert key in streams <==> key in streams - {fed};
    assert key in streams ==> streams'[key] == (streams' - {fed})[key] && streams[key] == (streams - {fed})[key];
  }
}
