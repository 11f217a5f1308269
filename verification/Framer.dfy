/** The TCP stream framer: messages out of a byte stream, cookies dropped, bad lengths skipped. */
module Framer {
  import opened Bytes
  import opened Header

  const MAX_MESSAGE := 4096 * 1024

  // ---- Looking at the front of the buffer ----------------------------------------------------

  datatype Look = NeedMore | Cookie | Skip | Message(size: nat)

  predicate IsCookie(buf: seq<byte>)
    requires |buf| >= HEADER_SIZE
  {
    && (|| (ReadU16(buf, 0) == 0xFFFF && ReadU16(buf, 2) == 0x0000)
        || (ReadU16(buf, 0) == 0xDEAD && ReadU16(buf, 2) == 0xBEEF))
    && ReadU32(buf, 4) == 8
  }

  function MessageSize(buf: seq<byte>): nat
    requires |buf| >= HEADER_SIZE
  {
    HEADER_SIZE + if ReadU32(buf, 4) >= 8 then ReadU32(buf, 4) - 8 else 0
  }

  function LookAt(buf: seq<byte>): (r: Look)
    ensures r.Cookie? ==> HEADER_SIZE <= |buf|
    ensures r.Skip? ==> 0 < |buf|
    ensures r.Message? ==> HEADER_SIZE <= r.size <= |buf|
  {
    if |buf| < HEADER_SIZE then NeedMore
    else if IsCookie(buf) then Cookie
    else if MessageSize(buf) > MAX_MESSAGE then Skip
    else if |buf| < MessageSize(buf) then NeedMore
    else Message(MessageSize(buf))
  }

  /**
  The decision in terms of the bytes: a cookie is one of two fixed headers, a message is 16 bytes plus what
  its length field announces beyond 8, and everything above 4 MiB is no message.
  */
  lemma LooksExactly(buf: seq<byte>)
    ensures |buf| < 16 ==> LookAt(buf) == NeedMore
    ensures |buf| >= 16 ==>
      var length := ReadU32(buf, 4);
      var size := if length < 8 then 16 else length + 8;
      var cookie := buf[..8] == [0xFF, 0xFF, 0, 0, 0, 0, 0, 8] || buf[..8] == [0xDE, 0xAD, 0xBE, 0xEF, 0, 0, 0, 8];
      && (LookAt(buf) == Cookie <==> cookie)
      && (LookAt(buf) == Skip <==> !cookie && size > 4_194_304)
      && (LookAt(buf) == NeedMore <==> !cookie && size <= 4_194_304 && |buf| < size)
      && (forall n: nat :: LookAt(buf) == Message(n) <==> !cookie && n == size <= 4_194_304 && n <= |buf|)
  {
    if |buf| >= 16 {
      CookieBytes(buf);
    }
  }

  lemma CookieBytes(buf: seq<byte>)
    requires |buf| >= 16
    ensures IsCookie(buf)
       <==> buf[..8] == [0xFF, 0xFF, 0, 0, 0, 0, 0, 8] || buf[..8] == [0xDE, 0xAD, 0xBE, 0xEF, 0, 0, 0, 8]
  {
    ReadsBigEndian(buf, 0);
    ReadsBigEndian(buf, 2);
    ReadsBigEndian(buf, 4);
    var s := buf[..8];
    assert s == [buf[0], buf[1], buf[2], buf[3], buf[4], buf[5], buf[6], buf[7]];
  }

  /** What becomes of the bytes at the front. */
  datatype Item = Emitted(bytes: seq<byte>) | DroppedCookie(bytes: seq<byte>) | Skipped(bytes: seq<byte>)

  /** The buffer after dropping cookies and skipping bytes, up to a message or the end. */
  function Scanned(buf: seq<byte>): (r: seq<byte>)
    ensures |r| <= |buf| && !LookAt(r).Cookie? && !LookAt(r).Skip?
    decreases |buf|
  {
    match LookAt(buf)
    case Cookie => Scanned(buf[HEADER_SIZE..])
    case Skip => Scanned(buf[1..])
    case _ => buf
  }

  class Framer {
    var buf: seq<byte>
    var consumed: nat

    ghost predicate Valid()
      reads this
    {
      consumed <= |buf|
    }

    /** The bytes not yet handed out. */
    ghost function Pending(): seq<byte>
      requires Valid()
      reads this
    {
      buf[consumed..]
    }

    constructor ()
      ensures Valid() && Pending() == []
    {
      buf, consumed := [], 0;
    }

    method Feed(data: seq<byte>)
      requires Valid()
      modifies this
      ensures Valid() && Pending() == old(Pending()) + data
      ensures buf == old(buf) + data && consumed == old(consumed)
    {
      buf := buf + data;
    }

    /** The next complete message, or no bytes; the message stays buffered until the next call. */
    method NextMessage() returns (msg: seq<byte>)
      requires Valid()
      modifies this
      ensures Valid()
      ensures buf == Scanned(old(Pending()))
      ensures LookAt(buf).NeedMore? ==> msg == [] && Pending() == buf
      ensures LookAt(buf).Message? ==> msg == buf[..LookAt(buf).size] && Pending() == buf[LookAt(buf).size..]
    {
      hide IsCookie, ReadU16, ReadU32;
      if consumed > 0 {
        buf := buf[consumed..];
        consumed := 0;
      }
      while true
        invariant consumed == 0 && Scanned(buf) == Scanned(old(Pending()))
        decreases |buf|
      {
        if |buf| < HEADER_SIZE { return []; }
        if IsCookie(buf) {
          buf := buf[HEADER_SIZE..];
          continue;
        }
        var size := MessageSize(buf);
        if size > MAX_MESSAGE {
          buf := buf[1..];
          continue;
        }
        if |buf| < size { return []; }
        consumed := size;
        return buf[..size];
      }
    }

    method Reset()
      modifies this
      ensures Valid() && Pending() == []
    {
      buf, consumed := [], 0;
    }
  }

  // ---- The one-shot parse of a whole stream ------------------------------------------------------

  /** The number of bytes that a decision settles, and what becomes of them. */
  function Width(buf: seq<byte>): (n: nat)
    requires !LookAt(buf).NeedMore?
    ensures 0 < n <= |buf|
  {
    match LookAt(buf)
    case Cookie => HEADER_SIZE
    case Skip => 1
    case Message(size) => size
  }

  function Front(buf: seq<byte>): (item: Item)
    requires !LookAt(buf).NeedMore?
    ensures item.bytes == buf[..Width(buf)]
  {
    match LookAt(buf)
    case Cookie => DroppedCookie(buf[..HEADER_SIZE])
    case Skip => Skipped(buf[..1])
    case Message(size) => Emitted(buf[..size])
  }

  /** What becomes of every byte of a stream, in order, and the bytes that are left. */
  function Parse(stream: seq<byte>): (seq<Item>, seq<byte>)
    decreases |stream|
  {
    if LookAt(stream).NeedMore? then ([], stream)
    else
      var (items, rest) := Parse(stream[Width(stream)..]);
      ([Front(stream)] + items, rest)
  }

  function Messages(items: seq<Item>): seq<seq<byte>>
    decreases |items|
  {
    if |items| == 0 then []
    else if items[0].Emitted? then [items[0].bytes] + Messages(items[1..])
    else Messages(items[1..])
  }

  function AllBytes(items: seq<Item>): seq<byte>
    decreases |items|
  {
    if |items| == 0 then [] else items[0].bytes + AllBytes(items[1..])
  }

  lemma AllBytesCons(item: Item, items: seq<Item>)
    ensures AllBytes([item] + items) == item.bytes + AllBytes(items)
  {
    assert ([item] + items)[1..] == items;
  }

  lemma ParseUnfold(stream: seq<byte>)
    ensures LookAt(stream).NeedMore? ==> Parse(stream) == ([], stream)
    ensures !LookAt(stream).NeedMore? ==>
      var tail := Parse(stream[Width(stream)..]);
      Parse(stream) == ([Front(stream)] + tail.0, tail.1)
  {
  }

  lemma Regroup(front: seq<byte>, mid: seq<byte>, rest: seq<byte>, tail: seq<byte>)
    requires mid + rest == tail
    ensures (front + mid) + rest == front + tail
  {
  }

  /** Every byte is emitted, dropped with a cookie, skipped, or left over: none twice, none lost. */
  lemma {:induction false} ParseConserves(stream: seq<byte>)
    ensures AllBytes(Parse(stream).0) + Parse(stream).1 == stream
    ensures LookAt(Parse(stream).1).NeedMore?
    decreases |stream|
  {
    hide LookAt, Width, Front, Parse;
    ParseUnfold(stream);
    if LookAt(stream).NeedMore? {
      assert AllBytes([]) + stream == stream;
    } else {
      var n := Width(stream);
      var tail := Parse(stream[n..]);
      ParseConserves(stream[n..]);
      AllBytesCons(Front(stream), tail.0);
      Regroup(stream[..n], AllBytes(tail.0), tail.1, stream[n..]);
      assert stream == stream[..n] + stream[n..];
    }
  }

  // ---- Decisions do not depend on what follows -----------------------------------------------------

  lemma LookIsStable(buf: seq<byte>, more: seq<byte>)
    requires !LookAt(buf).NeedMore?
    ensures LookAt(buf + more) == LookAt(buf)
  {
    assert (buf + more)[..|buf|] == buf;
    HeaderIsStable(buf, more);
  }

  lemma HeaderIsStable(buf: seq<byte>, more: seq<byte>)
    requires |buf| >= HEADER_SIZE
    ensures IsCookie(buf + more) == IsCookie(buf) && MessageSize(buf + more) == MessageSize(buf)
  {
    assert forall i :: 0 <= i < 8 ==> (buf + more)[i] == buf[i];
  }

  // ---- Whole runs --------------------------------------------------------------------------------------

  datatype Call = Feed(data: seq<byte>) | Next

  /** The items that one `NextMessage` call settles, starting from the pending bytes. */
  function Settled(pending: seq<byte>): seq<Item>
    decreases |pending|
  {
    if LookAt(pending).NeedMore? then []
    else if LookAt(pending).Message? then [Front(pending)]
    else [Front(pending)] + Settled(pending[Width(pending)..])
  }

  /** The pending bytes after one `NextMessage` call, and what the call returns. */
  function NextPending(pending: seq<byte>): seq<byte> {
    var buf := Scanned(pending);
    match LookAt(buf)
    case Message(n) => buf[n..]
    case _ => buf
  }

  function Returned(pending: seq<byte>): seq<byte> {
    var buf := Scanned(pending);
    match LookAt(buf)
    case Message(n) => buf[..n]
    case _ => []
  }

  function PendingAfter(pending: seq<byte>, calls: seq<Call>): seq<byte>
    decreases |calls|
  {
    if |calls| == 0 then pending
    else match calls[0]
      case Feed(data) => PendingAfter(pending + data, calls[1..])
      case Next => PendingAfter(NextPending(pending), calls[1..])
  }

  /** The non-empty results of the `NextMessage` calls of a run. */
  function Output(pending: seq<byte>, calls: seq<Call>): seq<seq<byte>>
    decreases |calls|
  {
    if |calls| == 0 then []
    else match calls[0]
      case Feed(data) => Output(pending + data, calls[1..])
      case Next =>
        var msg := Returned(pending);
        (if msg == [] then [] else [msg]) + Output(NextPending(pending), calls[1..])
  }

  function SettledBy(pending: seq<byte>, calls: seq<Call>): seq<Item>
    decreases |calls|
  {
    if |calls| == 0 then []
    else match calls[0]
      case Feed(data) => SettledBy(pending + data, calls[1..])
      case Next => Settled(pending) + SettledBy(NextPending(pending), calls[1..])
  }

  function Fed(calls: seq<Call>): seq<byte>
    decreases |calls|
  {
    if |calls| == 0 then []
    else (match calls[0] case Feed(data) => data case Next => []) + Fed(calls[1..])
  }

  /** Feeding the class and asking it for a message does what the functions above say. */
  method Drive(framer: Framer, data: seq<byte>) returns (msg: seq<byte>)
    requires framer.Valid()
    modifies framer
    ensures framer.Valid() && framer.Pending() == NextPending(old(framer.Pending()) + data)
    ensures msg == Returned(old(framer.Pending()) + data)
  {
    framer.Feed(data);
    msg := framer.NextMessage();
  }

  lemma FrontIsStable(buf: seq<byte>, more: seq<byte>)
    requires !LookAt(buf).NeedMore?
    ensures !LookAt(buf + more).NeedMore?
    ensures Front(buf + more) == Front(buf) && (buf + more)[Width(buf + more)..] == buf[Width(buf)..] + more
  {
    hide IsCookie, MessageSize;
    LookIsStable(buf, more);
    assert (buf + more)[..Width(buf)] == buf[..Width(buf)];
  }

  lemma ScanStep(pending: seq<byte>)
    requires !LookAt(pending).NeedMore? && !LookAt(pending).Message?
    ensures Scanned(pending) == Scanned(pending[Width(pending)..]) && !Front(pending).Emitted?
  {
    hide IsCookie, MessageSize;
  }

  /** A call settles its items for good: the parse of the stream, whatever comes next, starts with them. */
  lemma {:induction false} NextIsParse(pending: seq<byte>, more: seq<byte>)
    ensures Parse(pending + more).0 == Settled(pending) + Parse(NextPending(pending) + more).0
    ensures Parse(pending + more).1 == Parse(NextPending(pending) + more).1
    decreases |pending|
  {
    hide LookAt, Width, Front, Scanned;
    var look := LookAt(pending);
    if look.NeedMore? || look.Message? {
      ScanStops(pending);
    }
    if look.NeedMore? {
      assert [] + Parse(pending + more).0 == Parse(pending + more).0;
    } else {
      FrontIsStable(pending, more);
      if !look.Message? {
        ScanStep(pending);
        var rest := pending[Width(pending)..];
        NextIsParse(rest, more);
        assert [Front(pending)] + (Settled(rest) + Parse(NextPending(rest) + more).0)
            == [Front(pending)] + Settled(rest) + Parse(NextPending(rest) + more).0;
      }
    }
  }

  lemma ScanStops(pending: seq<byte>)
    requires LookAt(pending).NeedMore? || LookAt(pending).Message?
    ensures Scanned(pending) == pending
    ensures LookAt(pending).Message? ==>
      && NextPending(pending) == pending[Width(pending)..] && Returned(pending) == pending[..Width(pending)]
      && Front(pending) == Emitted(Returned(pending)) && Returned(pending) != []
    ensures LookAt(pending).NeedMore? ==> NextPending(pending) == pending && Returned(pending) == []
  {
  }

  lemma {:induction false} ReturnsItsMessage(pending: seq<byte>)
    ensures Messages(Settled(pending)) == if Returned(pending) == [] then [] else [Returned(pending)]
    decreases |pending|
  {
    hide LookAt, Width, Front, Scanned;
    var look := LookAt(pending);
    if look.NeedMore? || look.Message? {
      ScanStops(pending);
      assert look.Message? ==> Settled(pending)[1..] == [];
    } else {
      ScanStep(pending);
      var rest := pending[Width(pending)..];
      ReturnsItsMessage(rest);
      assert Settled(pending)[1..] == Settled(rest);
    }
  }

  lemma {:induction false} MessagesAppend(a: seq<Item>, b: seq<Item>)
    ensures Messages(a + b) == Messages(a) + Messages(b)
    decreases |a|
  {
    if |a| == 0 {
      assert a + b == b;
    } else {
      assert (a + b)[1..] == a[1..] + b;
      MessagesAppend(a[1..], b);
      assert (a + b)[0] == a[0];
    }
  }

  /**
   However a stream is cut into `Feed` calls and whenever `NextMessage` is called in between, what has
   been settled so far followed by the parse of what is pending is the parse of the whole stream.
   */
  lemma {:induction false} RunIsParse(pending: seq<byte>, calls: seq<Call>)
    ensures Parse(pending + Fed(calls)).0 == SettledBy(pending, calls) + Parse(PendingAfter(pending, calls)).0
    ensures Parse(pending + Fed(calls)).1 == Parse(PendingAfter(pending, calls)).1
    ensures Output(pending, calls) == Messages(SettledBy(pending, calls))
    decreases |calls|
  {
    hide Parse, Settled, NextPending, Returned, Messages;
    if |calls| == 0 {
      NoMessages();
      assert pending + [] == pending;
      assert [] + Parse(pending).0 == Parse(pending).0;
    } else {
      var rest := calls[1..];
      match calls[0] {
        case Feed(data) =>
          assert pending + (data + Fed(rest)) == (pending + data) + Fed(rest);
          RunIsParse(pending + data, rest);
        case Next =>
          assert [] + Fed(rest) == Fed(rest);
          NextIsParse(pending, Fed(rest));
          ReturnsItsMessage(pending);
          RunIsParse(NextPending(pending), rest);
          MessagesAppend(Settled(pending), SettledBy(NextPending(pending), rest));
      }
    }
  }

  lemma NoMessages()
    ensures Messages([]) == []
  {
  }

  /** Once drained, the output does not depend on the chunking: it is the one-shot parse of the stream. */
  lemma ChunkingDoesNotMatter(calls: seq<Call>)
    requires LookAt(PendingAfter([], calls)).NeedMore?
    ensures Output([], calls) == Messages(Parse(Fed(calls)).0)
    ensures PendingAfter([], calls) == Parse(Fed(calls)).1
    ensures AllBytes(SettledBy([], calls)) + PendingAfter([], calls) == Fed(calls)
  {
    RunIsParse([], calls);
    assert [] + Fed(calls) == Fed(calls);
    assert SettledBy([], calls) + [] == SettledBy([], calls);
    ParseConserves(Fed(calls));
  }

  // ---- Round trip -----------------------------------------------------------------------------------------

  /** What a sender puts on the stream: a message, or a cookie between messages. */
  ghost predicate WellFormed(item: Item) {
    match item
    case Emitted(m) => |m| >= HEADER_SIZE && !IsCookie(m) && MessageSize(m) == |m| <= MAX_MESSAGE
    case DroppedCookie(c) => |c| == HEADER_SIZE && IsCookie(c)
    case Skipped(_) => false
  }

  lemma WellFormedFront(item: Item, rest: seq<byte>)
    requires WellFormed(item)
    ensures !LookAt(item.bytes + rest).NeedMore?
    ensures Front(item.bytes + rest) == item && (item.bytes + rest)[Width(item.bytes + rest)..] == rest
  {
    HeaderIsStable(item.bytes, rest);
    assert (item.bytes + rest)[..|item.bytes|] == item.bytes;
  }

  /** A stream of well-formed messages and cookies frames back into exactly these. */
  lemma {:induction false} RoundTrip(items: seq<Item>)
    requires forall i :: 0 <= i < |items| ==> WellFormed(items[i])
    ensures Parse(AllBytes(items)) == (items, [])
    decreases |items|
  {
    if |items| == 0 {
      assert LookAt([]).NeedMore?;
    } else {
      hide LookAt, Width, Front, WellFormed;
      WellFormedFront(items[0], AllBytes(items[1..]));
      RoundTrip(items[1..]);
      assert [items[0]] + items[1..] == items;
    }
  }

  /** Every run over such a stream, once drained, has emitted exactly the messages, in order. */
  lemma FramesBack(items: seq<Item>, calls: seq<Call>)
    requires forall i :: 0 <= i < |items| ==> WellFormed(items[i])
    requires Fed(calls) == AllBytes(items) && LookAt(PendingAfter([], calls)).NeedMore?
    ensures Output([], calls) == Messages(items) && PendingAfter([], calls) == []
  {
    RoundTrip(items);
    ChunkingDoesNotMatter(calls);
  }
}
