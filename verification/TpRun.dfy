/** Reassembly of honestly segmented payloads, for every order, repetition and interleaving. */
module TpRun {
  import opened Bytes
  import opened Wrappers
  import opened Header
  import opened Tp
  import opened TpAssembler

  // ---- Pieces tile the payload ---------------------------------------------------------------

  ghost predicate Tiles(ps: seq<Fragment>, from: nat, payload: seq<byte>)
    decreases |ps|
  {
    if |ps| == 0 then from == |payload|
    else
      && ps[0].offset == from && |ps[0].data| > 0 && from + |ps[0].data| <= |payload|
      && ps[0].data == payload[from..from + |ps[0].data|]
      && Tiles(ps[1..], from + |ps[0].data|, payload)
  }

  lemma {:induction false} PiecesTile(payload: seq<byte>, from: nat, max: nat)
    requires from <= |payload| && max >= 1
    ensures Tiles(Pieces(payload, from, max), from, payload)
    decreases |payload| - from
  {
    if from < |payload| {
      var to := if |payload| - from > max then from + max else |payload|;
      PiecesTile(payload, to, max);
    }
  }

  lemma {:induction false} TilesAt(ps: seq<Fragment>, from: nat, payload: seq<byte>, k: nat)
    requires Tiles(ps, from, payload) && k < |ps|
    ensures from <= ps[k].offset && |ps[k].data| > 0 && Tiles(ps[k..], ps[k].offset, payload)
    ensures ps[k].offset + |ps[k].data| <= |payload|
    ensures k > 0 ==> ps[0].offset < ps[k].offset
    ensures ps[k].offset + |ps[k].data| == |payload| <==> k == |ps| - 1
    decreases k
  {
    if k > 0 {
      TilesAt(ps[1..], from + |ps[0].data|, payload, k - 1);
      assert ps[1..][k - 1..] == ps[k..];
    } else {
      assert ps[0..] == ps;
      if |ps| > 1 {
        assert ps[1..][0].offset == from + |ps[0].data|;
      }
    }
  }

  // ---- What the table holds -----------------------------------------------------------------

  /** The pieces from the j-th on that have been received, in order. */
  ghost function Collected(ps: seq<Fragment>, received: set<nat>, j: nat): seq<Fragment>
    requires j <= |ps|
    decreases |ps| - j
  {
    if j == |ps| then []
    else if j in received then [ps[j]] + Collected(ps, received, j + 1)
    else Collected(ps, received, j + 1)
  }

  lemma {:induction false} CollectedStart(ps: seq<Fragment>, payload: seq<byte>, received: set<nat>, j: nat)
    requires Tiles(ps, 0, payload) && j <= |ps|
    ensures var c := Collected(ps, received, j);
            |c| > 0 ==> j < |ps| && c[0].offset >= ps[j].offset
    decreases |ps| - j
  {
    if j < |ps| && j !in received {
      CollectedStart(ps, payload, received, j + 1);
      if j + 1 < |ps| {
        Increasing(ps, payload, j, j + 1);
      }
    }
  }

  lemma Increasing(ps: seq<Fragment>, payload: seq<byte>, i: nat, k: nat)
    requires Tiles(ps, 0, payload) && i < k < |ps|
    ensures ps[i].offset < ps[k].offset && ps[i].offset + |ps[i].data| <= ps[k].offset
  {
    TilesAt(ps, 0, payload, i);
    TilesAt(ps[i..], ps[i].offset, payload, k - i);
    var rest := ps[i..];
    TilesAt(rest[1..], ps[i].offset + |ps[i].data|, payload, k - i - 1);
    assert rest[1..][k - i - 1] == ps[k];
  }

  lemma PutAfter(f: Fragment, rest: seq<Fragment>, g: Fragment)
    requires f.offset < g.offset
    ensures Put([f] + rest, g) == [f] + Put(rest, g)
  {
    assert ([f] + rest)[1..] == rest;
  }

  lemma PutFront(rest: seq<Fragment>, g: Fragment)
    requires |rest| > 0 ==> g.offset < rest[0].offset
    ensures Put(rest, g) == [g] + rest && Put([g] + rest, g) == [g] + rest
  {
    assert ([g] + rest)[1..] == rest;
  }

  /** Storing piece k adds k to the received set, whether or not it was there. */
  lemma {:induction false} PutCollected(ps: seq<Fragment>, payload: seq<byte>, received: set<nat>, j: nat, k: nat)
    requires Tiles(ps, 0, payload) && j <= k < |ps|
    ensures Put(Collected(ps, received, j), ps[k]) == Collected(ps, received + {k}, j)
    decreases |ps| - j
  {
    hide Put, Tiles;
    var rest := Collected(ps, received, j + 1);
    if j == k {
      CollectedIgnores(ps, received, k, k + 1);
      CollectedStart(ps, payload, received, k + 1);
      if k + 1 < |ps| {
        Increasing(ps, payload, k, k + 1);
      }
      PutFront(rest, ps[k]);
    } else {
      PutCollected(ps, payload, received, j + 1, k);
      Increasing(ps, payload, j, k);
      PutAfter(ps[j], rest, ps[k]);
    }
  }

  lemma {:induction false} CollectedIgnores(ps: seq<Fragment>, received: set<nat>, k: nat, j: nat)
    requires k < j <= |ps|
    ensures Collected(ps, received + {k}, j) == Collected(ps, received, j)
    decreases |ps| - j
  {
    if j < |ps| {
      CollectedIgnores(ps, received, k, j + 1);
    }
  }

  ghost function Start(ps: seq<Fragment>, payload: seq<byte>, j: nat): nat
    requires j <= |ps|
  {
    if j < |ps| then ps[j].offset else |payload|
  }

  lemma NextStart(ps: seq<Fragment>, payload: seq<byte>, j: nat)
    requires Tiles(ps, 0, payload) && j < |ps|
    ensures Start(ps, payload, j) + |ps[j].data| == Start(ps, payload, j + 1) <= |payload|
    ensures ps[j].data == payload[Start(ps, payload, j)..Start(ps, payload, j + 1)]
  {
    TilesAt(ps, 0, payload, j);
    var rest := ps[j..];
    if j + 1 < |ps| {
      assert rest[1..][0] == ps[j + 1];
      TilesAt(ps, 0, payload, j + 1);
    }
  }

  lemma AssembledFront(f: Fragment, rest: seq<Fragment>, final: nat)
    ensures Assembled([f] + rest, f.offset, final) == Prepend(f.data, Assembled(rest, f.offset + |f.data|, final))
    ensures InBounds([f] + rest, f.offset, final)
       <==> f.offset + |f.data| <= final && InBounds(rest, f.offset + |f.data|, final)
  {
    assert ([f] + rest)[1..] == rest;
  }

  lemma AssembledGap(fs: seq<Fragment>, expected: nat, final: nat)
    requires |fs| > 0 && fs[0].offset != expected
    ensures Assembled(fs, expected, final) == None && InBounds(fs, expected, final)
  {
  }

  lemma AssembledEnd(final: nat)
    ensures Assembled([], final, final) == Some([]) && InBounds([], final, final)
  {
  }

  /** No piece from the j-th to the n-th is missing. */
  ghost predicate HasFrom(received: set<nat>, j: nat, n: nat)
    decreases n - j
  {
    j < n ==> j in received && HasFrom(received, j + 1, n)
  }

  lemma {:induction false} HasFromAll(received: set<nat>, j: nat, n: nat)
    ensures HasFrom(received, j, n) <==> forall i :: j <= i < n ==> i in received
    decreases n - j
  {
    if j < n {
      HasFromAll(received, j + 1, n);
    }
  }

  /** Assembly succeeds exactly when every piece is there, and then yields the payload. */
  lemma {:induction false} AssembledCollected(ps: seq<Fragment>, payload: seq<byte>, received: set<nat>, j: nat)
    requires Tiles(ps, 0, payload) && j <= |ps|
    requires |ps| > 0 ==> |ps| - 1 in received
    ensures InBounds(Collected(ps, received, j), Start(ps, payload, j), |payload|)
    ensures Start(ps, payload, j) <= |payload|
    ensures Assembled(Collected(ps, received, j), Start(ps, payload, j), |payload|)
         == if HasFrom(received, j, |ps|) then Some(payload[Start(ps, payload, j)..]) else None
    decreases |ps| - j
  {
    hide Assembled, InBounds, Tiles;
    if j == |ps| {
      AssembledEnd(|payload|);
      assert payload[|payload|..] == [];
    } else {
      var from := Start(ps, payload, j);
      var rest := Collected(ps, received, j + 1);
      NextStart(ps, payload, j);
      AssembledCollected(ps, payload, received, j + 1);
      if j in received {
        AssembledFront(ps[j], rest, |payload|);
        assert payload[from..] == ps[j].data + payload[Start(ps, payload, j + 1)..];
      } else {
        CollectedStart(ps, payload, received, j + 1);
        CollectedNonEmpty(ps, received, j + 1);
        Increasing(ps, payload, j, j + 1);
        AssembledGap(rest, from, |payload|);
      }
    }
  }

  lemma {:induction false} CollectedNonEmpty(ps: seq<Fragment>, received: set<nat>, j: nat)
    requires j < |ps| && |ps| - 1 in received
    ensures |Collected(ps, received, j)| > 0
    decreases |ps| - j
  {
    if j < |ps| - 1 {
      CollectedNonEmpty(ps, received, j + 1);
    }
  }

  // ---- Honest senders -----------------------------------------------------------------------------

  ghost function Below(n: nat): (s: set<nat>)
    ensures forall k: nat :: k in s <==> k < n
  {
    if n == 0 then {} else Below(n - 1) + {n - 1}
  }

  /** A payload sent as TP segments. */
  datatype Transmission = Transmission(hdr: seq<byte>, payload: seq<byte>, max: nat)
  {
    /** What the segmentation asks for. */
    predicate Formed() {
      |hdr| == HEADER_SIZE && max >= 1
    }

    /** The payload is not empty and its offsets and length fit the fields that carry them. */
    ghost predicate Valid() {
      && Formed()
      && 0 < |payload| < TWO32
      && var ps := Parts();
         forall k :: 0 <= k < |ps| ==> ps[k].offset < TWO28
    }

    function Parts(): seq<Fragment>
      requires max >= 1
    {
      Pieces(payload, 0, max)
    }

    /** The k-th segment that `SegmentMessage` produces. */
    function Wire(k: nat): seq<byte>
      requires |hdr| == HEADER_SIZE && max >= 1 && k < |Parts()|
    {
      Segments(hdr, Parts())[k]
    }

    ghost function All(): set<nat>
      requires max >= 1
    {
      Below(|Parts()|)
    }
  }

  lemma PartsExist(t: Transmission)
    requires t.Formed()
    ensures Tiles(t.Parts(), 0, t.payload) && (|t.Parts()| > 0 <==> |t.payload| > 0)
  {
    PiecesTile(t.payload, 0, t.max);
  }

  lemma SegmentHeaderReads(hdr: seq<byte>, p: Fragment, more: bool, at: nat)
    requires |hdr| == HEADER_SIZE && at in {0, 2, 8, 10}
    ensures ReadU16(Segment(hdr, p, more), at) == ReadU16(hdr, at)
  {
  }

  lemma SegmentReads(hdr: seq<byte>, p: Fragment, more: bool)
    requires |hdr| == HEADER_SIZE
    ensures KeyOf(Segment(hdr, p, more)) == KeyOf(hdr)
    ensures ReadTpHeader(Segment(hdr, p, more), HEADER_SIZE) == TpHeader(Offset28(p.offset), more)
    ensures Segment(hdr, p, more)[HEADER_SIZE + TP_HEADER_SIZE..] == p.data
  {
    hide SegmentHeader, ReadU16, ReadU32;
    var s := Segment(hdr, p, more);
    SegmentHeaderReads(hdr, p, more, 0);
    SegmentHeaderReads(hdr, p, more, 2);
    SegmentHeaderReads(hdr, p, more, 8);
    SegmentHeaderReads(hdr, p, more, 10);
    assert s[HEADER_SIZE..HEADER_SIZE + TP_HEADER_SIZE] == BeU32(TpWord(TpHeader(p.offset, more)));
    TpHeaderRoundTrip(s, HEADER_SIZE, TpHeader(p.offset, more));
  }

  // ---- One segment --------------------------------------------------------------------------------

  /** The table entry for a stream of which `received` has arrived. */
  ghost predicate HoldsStream(streams: map<Key, Stream>, key: Key, t: Transmission, received: set<nat>)
    requires t.Valid()
  {
    && received < t.All()
    && (key in streams <==> received != {})
    && (key in streams ==>
          streams[key]
          == Stream(Collected(t.Parts(), received, 0), if |t.Parts()| - 1 in received then |t.payload| else 0))
  }

  lemma CollectedNone(ps: seq<Fragment>, j: nat)
    requires j <= |ps|
    ensures Collected(ps, {}, j) == []
    decreases |ps| - j
  {
  }

  lemma StoredPart(streams: map<Key, Stream>, t: Transmission, received: set<nat>, k: nat)
    requires t.Valid() && HoldsStream(streams, KeyOf(t.hdr), t, received) && k < |t.Parts()|
    ensures KeyOf(t.Wire(k)) == KeyOf(t.hdr) && |t.Wire(k)| >= HEADER_SIZE + TP_HEADER_SIZE
    ensures var received' := received + {k};
            StreamAfter(streams, t.Wire(k), t.Wire(k)) ==
            Stream(Collected(t.Parts(), received', 0), if |t.Parts()| - 1 in received' then |t.payload| else 0)
  {
    hide KeyOf, ReadTpHeader, Segment, Put, Tiles, Pieces;
    var ps := t.Parts();
    PartsExist(t);
    SegmentReads(t.hdr, ps[k], k + 1 < |ps|);
    PutCollected(ps, t.payload, received, 0, k);
    CollectedNone(ps, 0);
    TilesAt(ps, 0, t.payload, k);
  }

  /** What one segment does to its stream: an error until the last missing piece arrives. */
  lemma FeedPart(streams: map<Key, Stream>, t: Transmission, received: set<nat>, k: nat)
    requires t.Valid() && HoldsStream(streams, KeyOf(t.hdr), t, received) && k < |t.Parts()|
    ensures KeyOf(t.Wire(k)) == KeyOf(t.hdr) && Writable(streams, t.Wire(k), t.Wire(k))
    ensures var (streams', result) := Fed(streams, t.Wire(k), t.Wire(k));
            && streams' - {KeyOf(t.hdr)} == streams - {KeyOf(t.hdr)}
            && if received + {k} == t.All()
               then result == Complete(t.payload) && HoldsStream(streams', KeyOf(t.hdr), t, {})
               else result == InvalidLength && HoldsStream(streams', KeyOf(t.hdr), t, received + {k})
  {
    hide KeyOf, ReadTpHeader, Segment, Put, Tiles, Pieces, Assembled, InBounds, Collected;
    var ps, received' := t.Parts(), received + {k};
    PartsExist(t);
    StoredPart(streams, t, received, k);
    if |ps| - 1 in received' {
      AssembledCollected(ps, t.payload, received', 0);
      HasFromAll(received', 0, |ps|);
      TilesAt(ps, 0, t.payload, 0);
      assert t.payload[0..] == t.payload;
      assert (forall i :: 0 <= i < |ps| ==> i in received') <==> received' == t.All();
    } else {
      assert |ps| - 1 in t.All();
    }
  }

  // ---- Whole runs -----------------------------------------------------------------------------------

  /** The k-th segment of the transmission with this key arrives. */
  datatype Arrival = Arrival(key: Key, k: nat)

  /** Transmissions under way, by key; keys are pairwise different, payloads arbitrary. */
  ghost predicate Underway(ts: map<Key, Transmission>) {
    forall key :: key in ts ==> ts[key].Formed() && KeyOf(ts[key].hdr) == key
  }

  /** Transmissions whose payloads fit the header fields. */
  ghost predicate Senders(ts: map<Key, Transmission>): (senders: bool)
    ensures senders ==> Underway(ts)
  {
    Underway(ts) && forall key :: key in ts ==> ts[key].Valid()
  }

  ghost predicate Arrivals(ts: map<Key, Transmission>, arrivals: seq<Arrival>)
    requires Underway(ts)
  {
    forall i :: 0 <= i < |arrivals| ==> arrivals[i].key in ts && arrivals[i].k < |ts[arrivals[i].key].Parts()|
  }

  ghost function FedAll(
      streams: map<Key, Stream>, ts: map<Key, Transmission>, arrivals: seq<Arrival>): (results: seq<FeedResult>)
    requires Underway(ts) && Arrivals(ts, arrivals)
    ensures |results| == |arrivals|
    decreases |arrivals|
  {
    if |arrivals| == 0 then []
    else
      var wire := ts[arrivals[0].key].Wire(arrivals[0].k);
      var (streams', result) := Fed(streams, wire, wire);
      [result] + FedAll(streams', ts, arrivals[1..])
  }

  /** The specification: per key the set of pieces received since its last completion. */
  ghost function Expected(
      received: map<Key, set<nat>>, ts: map<Key, Transmission>, arrivals: seq<Arrival>): seq<FeedResult>
    requires Senders(ts) && Arrivals(ts, arrivals) && received.Keys == ts.Keys
    decreases |arrivals|
  {
    if |arrivals| == 0 then []
    else
      var a := arrivals[0];
      var now := received[a.key] + {a.k};
      if now == ts[a.key].All() then [Complete(ts[a.key].payload)] + Expected(received[a.key := {}], ts, arrivals[1..])
      else [InvalidLength] + Expected(received[a.key := now], ts, arrivals[1..])
  }

  ghost predicate HoldsAll(streams: map<Key, Stream>, ts: map<Key, Transmission>, received: map<Key, set<nat>>)
    requires Senders(ts)
  {
    received.Keys == ts.Keys && forall key :: key in ts ==> HoldsStream(streams, key, ts[key], received[key])
  }

  lemma OthersKeep(streams: map<Key, Stream>, streams': map<Key, Stream>, key: Key, other: Key,
                   t: Transmission, received: set<nat>)
    requires t.Valid() && other != key && streams' - {key} == streams - {key}
    requires HoldsStream(streams, other, t, received)
    ensures HoldsStream(streams', other, t, received)
  {
    hide Collected;
    assert other in streams <==> other in streams - {key};
    assert other in streams' <==> other in streams' - {key};
    if other in streams {
      assert (streams' - {key})[other] == (streams - {key})[other];
    }
  }

  lemma ArrivalKeeps(streams: map<Key, Stream>, ts: map<Key, Transmission>, received: map<Key, set<nat>>, a: Arrival)
    requires Senders(ts) && HoldsAll(streams, ts, received)
    requires a.key in ts && a.k < |ts[a.key].Parts()|
    ensures var t, now := ts[a.key], received[a.key] + {a.k};
            var (streams', result) := Fed(streams, t.Wire(a.k), t.Wire(a.k));
            if now == t.All() then result == Complete(t.payload) && HoldsAll(streams', ts, received[a.key := {}])
            else result == InvalidLength && HoldsAll(streams', ts, received[a.key := now])
    ensures Writable(streams, ts[a.key].Wire(a.k), ts[a.key].Wire(a.k))
  {
    hide HoldsStream, Fed, Writable, KeyOf;
    var t := ts[a.key];
    FeedPart(streams, t, received[a.key], a.k);
    var (streams', result) := Fed(streams, t.Wire(a.k), t.Wire(a.k));
    forall other | other in ts && other != a.key ensures HoldsStream(streams', other, ts[other], received[other]) {
      OthersKeep(streams, streams', a.key, other, ts[other], received[other]);
    }
  }

  /**
   Any interleaving of any number of streams, with segments repeated and in any order: every arrival is
   an error except one that supplies the last missing piece, which yields exactly the payload.
   */
  lemma {:induction false} RunIsExpected(streams: map<Key, Stream>, ts: map<Key, Transmission>,
                                         received: map<Key, set<nat>>, arrivals: seq<Arrival>)
    requires Senders(ts) && Arrivals(ts, arrivals) && HoldsAll(streams, ts, received)
    ensures FedAll(streams, ts, arrivals) == Expected(received, ts, arrivals)
    decreases |arrivals|
  {
    hide HoldsStream, Fed, KeyOf;
    if |arrivals| > 0 {
      var a := arrivals[0];
      var t, now := ts[a.key], received[a.key] + {a.k};
      ArrivalKeeps(streams, ts, received, a);
      var streams' := Fed(streams, t.Wire(a.k), t.Wire(a.k)).0;
      RunIsExpected(streams', ts, received[a.key := if now == t.All() then {} else now], arrivals[1..]);
    }
  }

  ghost function Nothing(ts: map<Key, Transmission>): map<Key, set<nat>> {
    map key | key in ts :: {}
  }

  lemma FreshRunIsExpected(ts: map<Key, Transmission>, arrivals: seq<Arrival>)
    requires Senders(ts) && Arrivals(ts, arrivals)
    ensures FedAll(map[], ts, arrivals) == Expected(Nothing(ts), ts, arrivals)
  {
    forall key | key in ts ensures HoldsStream(map[], key, ts[key], {}) {
      PartsExist(ts[key]);
      assert 0 in ts[key].All();
    }
    RunIsExpected(map[], ts, Nothing(ts), arrivals);
  }

  // ---- One transmission in any order -------------------------------------------------------------------

  function ArrivalsOf(key: Key, order: seq<nat>): seq<Arrival> {
    seq(|order|, i requires 0 <= i < |order| => Arrival(key, order[i]))
  }

  ghost function SetOf(order: seq<nat>): set<nat> {
    set i | 0 <= i < |order| :: order[i]
  }

  lemma SetOfCons(order: seq<nat>)
    requires |order| > 0
    ensures SetOf(order) == {order[0]} + SetOf(order[1..])
  {
    var rest := order[1..];
    assert forall x :: x in SetOf(rest) ==> exists i :: 0 <= i < |rest| && rest[i] == x && order[i + 1] == x;
  }

  lemma SetOfFront(order: seq<nat>)
    requires |order| > 0
    ensures SetOf(order[..|order| - 1]) <= SetOf(order)
  {
  }

  function Refusals(n: nat): seq<FeedResult> {
    if n == 0 then [] else [InvalidLength] + Refusals(n - 1)
  }

  lemma StillMissing(received: set<nat>, order: seq<nat>, all: set<nat>)
    requires |order| > 1 && received + SetOf(order) == all
    requires received + SetOf(order[..|order| - 1]) != all
    ensures var now, rest := received + {order[0]}, order[1..];
            now != all && now + SetOf(rest) == all && now + SetOf(rest[..|rest| - 1]) != all
  {
    hide SetOf;
    var rest := order[1..];
    var front := order[..|order| - 1];
    assert front[1..] == rest[..|rest| - 1];
    SetOfCons(order);
    SetOfCons(front);
    SetOfFront(rest);
  }

  /** If some piece is still missing before the last arrival, only the last arrival completes. */
  lemma {:induction false} OrderExpected(
      ts: map<Key, Transmission>, received: map<Key, set<nat>>, key: Key, order: seq<nat>)
    requires Senders(ts) && key in ts && received.Keys == ts.Keys && Arrivals(ts, ArrivalsOf(key, order))
    requires |order| > 0 && received[key] + SetOf(order) == ts[key].All()
    requires received[key] + SetOf(order[..|order| - 1]) != ts[key].All()
    ensures Expected(received, ts, ArrivalsOf(key, order)) == Refusals(|order| - 1) + [Complete(ts[key].payload)]
    decreases |order|
  {
    hide SetOf, Transmission.All;
    var now := received[key] + {order[0]};
    var rest := order[1..];
    assert ArrivalsOf(key, order)[1..] == ArrivalsOf(key, rest);
    if |order| == 1 {
      SetOfCons(order);
      SetOfNone();
      assert order[1..] == [];
    } else {
      StillMissing(received[key], order, ts[key].All());
      OrderExpected(ts, received[key := now], key, rest);
      assert [InvalidLength] + (Refusals(|rest| - 1) + [Complete(ts[key].payload)])
          == Refusals(|order| - 1) + [Complete(ts[key].payload)];
    }
  }

  lemma SetOfNone()
    ensures SetOf([]) == {}
  {
  }

  ghost predicate Distinct(order: seq<nat>) {
    forall i, j :: 0 <= i < j < |order| ==> order[i] != order[j]
  }

  lemma LastIsMissing(order: seq<nat>)
    requires |order| > 0 && Distinct(order)
    ensures SetOf(order[..|order| - 1]) != SetOf(order)
  {
    var last := order[|order| - 1];
    assert last in SetOf(order) && last !in SetOf(order[..|order| - 1]);
  }

  lemma OneSender(t: Transmission, order: seq<nat>)
    requires t.Valid() && SetOf(order) == t.All()
    ensures Senders(map[KeyOf(t.hdr) := t])
    ensures Arrivals(map[KeyOf(t.hdr) := t], ArrivalsOf(KeyOf(t.hdr), order)) && |order| > 0
  {
    PartsExist(t);
    InSetOf(order, t);
  }

  /** A payload's segments, each once and in any order: an error for all but the last, then the payload. */
  lemma AnyOrderReassembles(t: Transmission, order: seq<nat>)
    requires t.Valid() && Distinct(order) && SetOf(order) == t.All()
    ensures var key, ts := KeyOf(t.hdr), map[KeyOf(t.hdr) := t];
            && Senders(ts) && Arrivals(ts, ArrivalsOf(key, order)) && |order| > 0
            && FedAll(map[], ts, ArrivalsOf(key, order)) == Refusals(|order| - 1) + [Complete(t.payload)]
  {
    hide KeyOf, Expected, FedAll, Transmission.All, SetOf, Distinct, Senders, Arrivals;
    var key := KeyOf(t.hdr);
    var ts := map[key := t];
    OneSender(t, order);
    LastIsMissing(order);
    FreshRunIsExpected(ts, ArrivalsOf(key, order));
    EmptyPlus(SetOf(order));
    EmptyPlus(SetOf(order[..|order| - 1]));
    OrderExpected(ts, Nothing(ts), key, order);
  }

  lemma EmptyPlus(s: set<nat>)
    ensures {} + s == s
  {
  }

  lemma InSetOf(order: seq<nat>, t: Transmission)
    requires t.Formed() && SetOf(order) == t.All() && |t.Parts()| > 0
    ensures |order| > 0 && forall i :: 0 <= i < |order| ==> order[i] < |t.Parts()|
  {
    assert 0 in SetOf(order);
    forall i | 0 <= i < |order| ensures order[i] < |t.Parts()| {
      assert order[i] in SetOf(order);
    }
  }

  // ---- Payloads that do not fit the header fields --------------------------------------------------------

  lemma {:induction false} AssembledLength(fs: seq<Fragment>, expected: nat, final: nat)
    requires Assembled(fs, expected, final).Some?
    ensures expected + |Assembled(fs, expected, final).value| == final
    decreases |fs|
  {
    if |fs| > 0 {
      AssembledLength(fs[1..], expected + |fs[0].data|, final);
    }
  }

  /** Once an offset does not fit 28 bits, the last one does not. */
  lemma LastOffsetIsCut(t: Transmission)
    requires t.Formed() && !t.Valid() && 0 < |t.payload| < TWO32
    ensures |t.Parts()| > 0 && t.Parts()[|t.Parts()| - 1].offset >= TWO28
  {
    hide Tiles, Pieces;
    PartsExist(t);
    var ps := t.Parts();
    var k: nat :| k < |ps| && ps[k].offset >= TWO28;
    if k < |ps| - 1 {
      Increasing(ps, t.payload, k, |ps| - 1);
    }
  }

  lemma CutIsShorter(offset: nat, size: nat, total: nat)
    requires offset + size == total && (total >= TWO32 || offset >= TWO28)
    ensures (Offset28(offset) + size) % TWO32 < total
  {
  }

  /** The end that the receiver notes for such a payload is less than its length. */
  lemma FinalIsShort(streams: map<Key, Stream>, t: Transmission, k: nat)
    requires t.Formed() && !t.Valid() && k < |t.Parts()|
    requires KeyOf(t.hdr) in streams ==> streams[KeyOf(t.hdr)].finalOffset < |t.payload|
    ensures KeyOf(t.Wire(k)) == KeyOf(t.hdr) && |t.Wire(k)| >= HEADER_SIZE + TP_HEADER_SIZE
    ensures StreamAfter(streams, t.Wire(k), t.Wire(k)).finalOffset < |t.payload|
  {
    hide KeyOf, ReadTpHeader, Segment, Put, Tiles, Pieces;
    var ps := t.Parts();
    PartsExist(t);
    SegmentReads(t.hdr, ps[k], k + 1 < |ps|);
    TilesAt(ps, 0, t.payload, k);
    if k == |ps| - 1 {
      if |t.payload| < TWO32 {
        LastOffsetIsCut(t);
      }
      CutIsShorter(ps[k].offset, |ps[k].data|, |t.payload|);
    }
  }

  lemma FedShort(streams: map<Key, Stream>, t: Transmission, k: nat)
    requires t.Formed() && !t.Valid() && k < |t.Parts()|
    requires KeyOf(t.hdr) in streams ==> streams[KeyOf(t.hdr)].finalOffset < |t.payload|
    ensures
      var (streams', result) := Fed(streams, t.Wire(k), t.Wire(k));
      && result != Complete(t.payload)
      && (KeyOf(t.hdr) in streams' ==> streams'[KeyOf(t.hdr)].finalOffset < |t.payload|)
  {
    hide KeyOf, StreamAfter, Assembled, Transmission.Wire, Transmission.Valid;
    FinalIsShort(streams, t, k);
    var stream := StreamAfter(streams, t.Wire(k), t.Wire(k));
    if Assembled(stream.fragments, 0, stream.finalOffset).Some? {
      AssembledLength(stream.fragments, 0, stream.finalOffset);
    }
  }

  lemma SegmentKey(t: Transmission, k: nat)
    requires t.Formed() && k < |t.Parts()|
    ensures KeyOf(t.Wire(k)) == KeyOf(t.hdr)
  {
    hide KeyOf;
    SegmentReads(t.hdr, t.Parts()[k], k + 1 < |t.Parts()|);
  }

  lemma FedElsewhere(streams: map<Key, Stream>, key: Key, segment: seq<byte>)
    requires |segment| >= HEADER_SIZE && KeyOf(segment) != key
    ensures
      var streams' := Fed(streams, segment, segment).0;
      && (key in streams' <==> key in streams) && (key in streams ==> streams'[key] == streams[key])
  {
    hide KeyOf, StreamAfter, Assembled;
  }

  /** Whatever else is under way: a payload that does not fit the header fields is never handed out. */
  lemma {:induction false} OversizedNeverCompletes(
      streams: map<Key, Stream>, ts: map<Key, Transmission>, key: Key, arrivals: seq<Arrival>)
    requires Underway(ts) && Arrivals(ts, arrivals) && key in ts && !ts[key].Valid()
    requires key in streams ==> streams[key].finalOffset < |ts[key].payload|
    ensures forall i :: 0 <= i < |arrivals| && arrivals[i].key == key ==>
      FedAll(streams, ts, arrivals)[i] != Complete(ts[key].payload)
    decreases |arrivals|
  {
    hide KeyOf, Fed, Transmission.Valid, Transmission.Wire;
    if |arrivals| > 0 {
      var a, t := arrivals[0], ts[arrivals[0].key];
      SegmentKey(t, a.k);
      WireLength(t, a.k);
      if a.key == key {
        FedShort(streams, t, a.k);
      } else {
        FedElsewhere(streams, key, t.Wire(a.k));
      }
      var (streams', result) := Fed(streams, t.Wire(a.k), t.Wire(a.k));
      OversizedNeverCompletes(streams', ts, key, arrivals[1..]);
      assert FedAll(streams, ts, arrivals) == [result] + FedAll(streams', ts, arrivals[1..]);
      forall i | 0 <= i < |arrivals| && arrivals[i].key == key
        ensures FedAll(streams, ts, arrivals)[i] != Complete(ts[key].payload)
      {
        assert i > 0 ==> arrivals[i] == arrivals[1..][i - 1];
      }
    }
  }

  lemma WireLength(t: Transmission, k: nat)
    requires t.Formed() && k < |t.Parts()|
    ensures |t.Wire(k)| >= HEADER_SIZE
  {
  }

  lemma OneUnderway(t: Transmission, order: seq<nat>)
    requires t.Formed() && SetOf(order) == t.All()
    ensures Underway(map[KeyOf(t.hdr) := t])
    ensures Arrivals(map[KeyOf(t.hdr) := t], ArrivalsOf(KeyOf(t.hdr), order))
  {
    hide KeyOf;
    forall i | 0 <= i < |order|
      ensures order[i] < |t.Parts()|
    {
      assert order[i] in SetOf(order);
    }
  }

  /**
   For every transmission and every order of its segments: the payload is handed out exactly if it is not
   empty and its length and all its offsets fit the 32- and 28-bit fields that carry them.
   */
  lemma ReassemblesExactly(t: Transmission, order: seq<nat>)
    requires t.Formed() && Distinct(order) && SetOf(order) == t.All()
    ensures
      var key, ts := KeyOf(t.hdr), map[KeyOf(t.hdr) := t];
      && Underway(ts) && Arrivals(ts, ArrivalsOf(key, order))
      && (Complete(t.payload) in FedAll(map[], ts, ArrivalsOf(key, order)) <==> t.Valid())
  {
    hide KeyOf, FedAll, Transmission.All, Transmission.Valid, SetOf, Distinct, Senders, Arrivals, Underway;
    var key, ts := KeyOf(t.hdr), map[KeyOf(t.hdr) := t];
    OneUnderway(t, order);
    if t.Valid() {
      AnyOrderReassembles(t, order);
      var results := FedAll(map[], ts, ArrivalsOf(key, order));
      assert results == Refusals(|order| - 1) + [Complete(t.payload)];
      assert results[|results| - 1] == Complete(t.payload);
    } else {
      OversizedNeverCompletes(map[], ts, key, ArrivalsOf(key, order));
    }
  }

  // -- The failing input

  lemma TwoPieces(payload: seq<byte>)
    requires |payload| == TWO28 + 1
    ensures Pieces(payload, 0, TWO28) == [Fragment(0, payload[..TWO28]), Fragment(TWO28, payload[TWO28..])]
  {
    PiecesUnfold(payload, 0, TWO28);
    PiecesUnfold(payload, TWO28, TWO28);
    NoPieces(payload, TWO28);
    assert payload[0..TWO28] == payload[..TWO28] && payload[TWO28..|payload|] == payload[TWO28..];
  }

  lemma PutFirst(f: Fragment, g: Fragment)
    requires f.offset == g.offset
    ensures Put([], f) == [f] && Put([f], g) == [g]
  {
    assert [f][1..] == [];
  }

  lemma AssembledOne(f: Fragment)
    requires f.offset == 0
    ensures Assembled([f], 0, |f.data|) == Some(f.data)
  {
    assert [f][1..] == [] && f.data + [] == f.data;
  }

  /**
   One byte more than 28 bits can address, in segments of 2^28 bytes: the second segment lands on offset 0,
   replaces the first one there, and the receiver hands out a payload of one byte.
   */
  lemma OneByteTooMany(hdr: seq<byte>, payload: seq<byte>)
    requires |hdr| == HEADER_SIZE && |payload| == TWO28 + 1
    ensures
      var t := Transmission(hdr, payload, TWO28);
      && |t.Parts()| == 2
      && var (streams, first) := Fed(map[], t.Wire(0), t.Wire(0));
      && first == InvalidLength && Fed(streams, t.Wire(1), t.Wire(1)) == (map[], Complete(payload[TWO28..]))
  {
    hide KeyOf, ReadTpHeader, Segment, Pieces, Put, Assembled;
    var t := Transmission(hdr, payload, TWO28);
    TwoPieces(payload);
    SegmentReads(hdr, t.Parts()[0], true);
    SegmentReads(hdr, t.Parts()[1], false);
    var key, f, g := KeyOf(hdr), Fragment(0, payload[..TWO28]), Fragment(0, payload[TWO28..]);
    PutFirst(f, g);
    AssembledOne(g);
    assert StreamAfter(map[], t.Wire(0), t.Wire(0)) == Stream([f], 0);
    var streams: map<Key, Stream> := map[key := Stream([f], 0)];
    assert Fed(map[], t.Wire(0), t.Wire(0)) == (streams, InvalidLength);
    assert StreamAfter(streams, t.Wire(1), t.Wire(1)) == Stream([g], 1);
    assert streams - {key} == map[];
  }
}
