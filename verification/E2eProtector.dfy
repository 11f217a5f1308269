/** The protect and check stages around a message channel, with their counters. */
module E2eProtector {
  import opened Bytes
  import opened Header
  import opened E2eProfile

  datatype Profile = P01(c01: Config01) | P02(c02: Config02) | P04(c04: Config04) | P07(c07: Config07)
  {
    /** What the code demands of every payload it touches: offsets inside it, a full ID list. */
    predicate Fits(payload: seq<byte>) {
      match this
      case P01(c) => Fits01(payload, c)
      case P02(c) => c.Valid()
      case P04(c) => true
      case P07(c) => true
    }

    /** The payloads the profile can protect. */
    predicate Supports(payload: seq<byte>): (supported: bool)
      ensures supported ==> Fits(payload)
    {
      && Fits(payload)
      && match this
         case P01(c) => |payload| >= 2 && c.crcOffset != c.counterOffset
         case P02(c) => |payload| >= 2
         case P04(c) => 12 <= |payload| < TWO16
         case P07(c) => 20 <= |payload| < TWO32
    }

    /** The number of counter values. */
    function Modulus(): (m: nat)
      ensures m in {16, TWO16, TWO32}
    {
      match this
      case P01(_) => 16
      case P02(_) => 16
      case P04(_) => TWO16
      case P07(_) => TWO32
    }

    function MaxDelta(): nat {
      match this
      case P01(c) => c.maxDelta
      case P02(c) => c.maxDelta
      case P04(c) => c.maxDelta
      case P07(c) => c.maxDelta
    }

    function Protected(payload: seq<byte>, counter: u32): (r: seq<byte>)
      requires Fits(payload)
      ensures |r| == |payload|
    {
      match this
      case P01(c) => Protected01(payload, c, counter % 16)
      case P02(c) => Protected02(payload, c, counter % 16)
      case P04(c) => Protected04(payload, c, counter % TWO16)
      case P07(c) => Protected07(payload, c, counter)
    }

    predicate Authentic(payload: seq<byte>)
      requires Fits(payload)
    {
      match this
      case P01(c) => Authentic01(payload, c)
      case P02(c) => Authentic02(payload, c)
      case P04(c) => Authentic04(payload, c)
      case P07(c) => Authentic07(payload, c)
    }

    function Checked(payload: seq<byte>, counter: u32): (Result, u32)
      requires Fits(payload)
    {
      match this
      case P01(c) => Checked01(payload, c, counter % 0x100)
      case P02(c) => Checked02(payload, c, counter % 0x100)
      case P04(c) => Checked04(payload, c, counter % TWO16)
      case P07(c) => Checked07(payload, c, counter)
    }

    /** A message as the protect stage forwards it. */
    function ProtectedMessage(msg: seq<byte>, counter: u32): (r: seq<byte>)
      requires |msg| > HEADER_SIZE ==> Fits(msg[HEADER_SIZE..])
      ensures |r| == |msg|
    {
      if |msg| <= HEADER_SIZE then msg
      else
        var payload := msg[HEADER_SIZE..];
        Splice(msg[..HEADER_SIZE], 4, BeU32(AnnouncedLength(|payload|))) + Protected(payload, counter)
    }

    function NextCounter(msg: seq<byte>, counter: u32): u32 {
      if |msg| <= HEADER_SIZE then counter else (counter + 1) % TWO32
    }

    /** The verdict of the check stage on a message. */
    function CheckedMessage(msg: seq<byte>, counter: u32): (Result, u32)
      requires |msg| > HEADER_SIZE ==> Fits(msg[HEADER_SIZE..])
    {
      if |msg| <= HEADER_SIZE then (Error, counter) else Checked(msg[HEADER_SIZE..], counter)
    }
  }

  /** Counters of one data ID. */
  class E2eState {
    const profile: Profile
    var sendCounter: u32
    var recvCounter: u32

    constructor (profile: Profile)
      ensures this.profile == profile && sendCounter == 1 && recvCounter == 0
    {
      this.profile := profile;
      sendCounter := 1;
      recvCounter := 0;
    }

    /** The value handler of the protect stage: seals the message buffer in place. */
    method Protect(msg: array<byte>)
      requires msg.Length > HEADER_SIZE ==> profile.Fits(msg[HEADER_SIZE..])
      modifies msg, this`sendCounter
      ensures msg[..] == profile.ProtectedMessage(old(msg[..]), old(sendCounter))
      ensures sendCounter == profile.NextCounter(old(msg[..]), old(sendCounter))
    {
      hide Profile.Protected, Profile.Fits, BeU32, Splice;
      if msg.Length > HEADER_SIZE {
        ProtectPayload(msg);
        sendCounter := (sendCounter + 1) % TWO32;
        var size := msg.Length - HEADER_SIZE;
        ghost var sealed := msg[..];
        var view := new HeaderView(msg);
        view.SetPayloadLength(size);
        SpliceHead(sealed, HEADER_SIZE, 4, BeU32(AnnouncedLength(size)));
      }
    }

    /** Hands the payload to the protect function of the profile, with the counter cut to its width. */
    method ProtectPayload(msg: array<byte>)
      requires msg.Length > HEADER_SIZE && profile.Fits(msg[HEADER_SIZE..])
      modifies msg
      ensures msg[..HEADER_SIZE] == old(msg[..HEADER_SIZE])
      ensures msg[HEADER_SIZE..] == profile.Protected(old(msg[HEADER_SIZE..]), sendCounter)
    {
      hide Protected01, Protected02, Protected04, Protected07;
      match profile {
        case P01(c) => Protect01(msg, HEADER_SIZE, c, sendCounter % 16);
        case P02(c) => Protect02(msg, HEADER_SIZE, c, sendCounter % 16);
        case P04(c) => Protect04(msg, HEADER_SIZE, c, sendCounter % TWO16);
        case P07(c) => Protect07(msg, HEADER_SIZE, c, sendCounter);
      }
    }

    /** The value handler of the check stage: forwards the message or fails with the verdict. */
    method Check(msg: seq<byte>) returns (forwarded: bool, verdict: Result)
      requires |msg| > HEADER_SIZE ==> profile.Fits(msg[HEADER_SIZE..])
      modifies this`recvCounter
      ensures (verdict, recvCounter) == profile.CheckedMessage(msg, old(recvCounter))
      ensures forwarded <==> verdict == Ok
    {
      hide Checked01, Checked02, Checked04, Checked07;
      if |msg| <= HEADER_SIZE { return false, Error; }
      var payload := msg[HEADER_SIZE..];
      match profile {
        case P01(c) =>
          var counter := recvCounter % 0x100;
          verdict, counter := Check01(payload, c, counter);
          recvCounter := counter;
        case P02(c) =>
          var counter := recvCounter % 0x100;
          verdict, counter := Check02(payload, c, counter);
          recvCounter := counter;
        case P04(c) =>
          var counter := recvCounter % TWO16;
          verdict, counter := Check04(payload, c, counter);
          recvCounter := counter;
        case P07(c) =>
          verdict, recvCounter := Check07(payload, c, recvCounter);
      }
      NeverNoNewData(profile, payload, old(recvCounter));
      forwarded := verdict == Ok || verdict == NoNewData;
    }
  }

  /** The protect stage rewrites the length field and seals the payload; nothing else changes. */
  lemma ProtectedMessageReads(profile: Profile, msg: seq<byte>, counter: u32)
    requires |msg| > HEADER_SIZE && profile.Fits(msg[HEADER_SIZE..])
    ensures
      var r := profile.ProtectedMessage(msg, counter);
      && ReadHeader(r) == ReadHeader(msg).(length := (|msg| - 8) % 0x1_0000_0000)
      && r[HEADER_SIZE..] == profile.Protected(msg[HEADER_SIZE..], counter)
  {
    hide BeU32, ReadU16, ReadU32, Profile.Protected, Profile.Fits;
    var r, length := profile.ProtectedMessage(msg, counter), AnnouncedLength(|msg| - HEADER_SIZE);
    var front := Splice(msg[..HEADER_SIZE], 4, BeU32(length));
    assert r == front + profile.Protected(msg[HEADER_SIZE..], counter);
    assert r[4..8] == BeU32(length);
    ReadWrittenU32(r, 4, length);
    SameU16(msg, r, 0);
    SameU16(msg, r, 2);
    SameU16(msg, r, 8);
    SameU16(msg, r, 10);
    Announces(|msg| - HEADER_SIZE);
  }

  lemma Announces(size: nat)
    ensures AnnouncedLength(size) == (size + 8) % 0x1_0000_0000
  {
  }

  /** A message without payload is neither sealed nor counted, and the receiver reports an error. */
  lemma BareHeaderIsNotProtected(profile: Profile, msg: seq<byte>, counter: u32)
    requires |msg| <= 16
    ensures profile.ProtectedMessage(msg, counter) == msg && profile.NextCounter(msg, counter) == counter
    ensures profile.CheckedMessage(msg, counter) == (Error, counter)
  {
  }

  lemma SpliceHead(s: seq<byte>, end: nat, at: nat, w: seq<byte>)
    requires at + |w| <= end <= |s|
    ensures Splice(s, at, w) == Splice(s[..end], at, w) + s[end..]
  {
  }

  lemma NeverNoNewData(profile: Profile, payload: seq<byte>, counter: u32)
    requires profile.Fits(payload)
    ensures profile.Checked(payload, counter).0 != NoNewData
  {
    hide Authentic01, Authentic02, Authentic04, Authentic07, ReadU16, ReadU32;
  }
}
