/** Whole runs of a sender and a receiver over a channel that loses, repeats, reorders and adds noise. */
module E2eRun {
  import opened Bytes
  import opened Header
  import opened E2eProfile
  import opened E2eDetection
  import opened E2eProtector

  // ---- One message ----------------------------------------------------------------------------

  lemma NibbleDelta(send: u32, recv: u32)
    ensures (send % 16 - recv % 0x100) % 16 == (send - recv) % 16
  {
    ModCongruent(send % 16 - recv % 0x100, send - recv, 16, 16 * (recv / 0x100) - send / 16);
  }

  lemma WordDelta(send: u32, recv: u32)
    ensures (send % TWO16 - recv % TWO16) % TWO16 == (send - recv) % TWO16
  {
    ModCongruent(send % TWO16 - recv % TWO16, send - recv, TWO16, recv / TWO16 - send / TWO16);
  }

  lemma Mod16(a: int, b: int, k: int)
    requires a == b + 16 * k
    ensures a % 16 == b % 16
  {
  }

  lemma ModTwo16(a: int, b: int, k: int)
    requires a == b + 0x1_0000 * k
    ensures a % 0x1_0000 == b % 0x1_0000
  {
  }

  lemma ModTwo32(a: int, b: int, k: int)
    requires a == b + 0x1_0000_0000 * k
    ensures a % 0x1_0000_0000 == b % 0x1_0000_0000
  {
  }

  lemma ModCongruent(a: int, b: int, m: nat, k: int)
    requires m in {16, TWO16, TWO32} && a == b + m * k
    ensures a % m == b % m
  {
    if m == 16 {
      Mod16(a, b, k);
    } else if m == TWO16 {
      ModTwo16(a, b, k);
    } else {
      ModTwo32(a, b, k);
    }
  }

  lemma Checked01Protected(c: Config01, payload: seq<byte>, send: u32, recv: u32)
    requires P01(c).Supports(payload)
    ensures P01(c).Fits(Protected01(payload, c, send % 16))
    ensures Checked01(Protected01(payload, c, send % 16), c, recv % 0x100)
         == (Sequence((send - recv) % 16, c.maxDelta), send % 16)
  {
    hide Protected01, Authentic01, LowNibble, Sequence;
    Protected01Passes(payload, c, send % 16);
    NibbleDelta(send, recv);
  }

  lemma Checked02Protected(c: Config02, payload: seq<byte>, send: u32, recv: u32)
    requires P02(c).Supports(payload)
    ensures P02(c).Fits(Protected02(payload, c, send % 16))
    ensures Checked02(Protected02(payload, c, send % 16), c, recv % 0x100)
         == (Sequence((send - recv) % 16, c.maxDelta), send % 16)
  {
    hide Protected02, Authentic02, LowNibble, Sequence;
    Protected02Passes(payload, c, send % 16);
    NibbleDelta(send, recv);
  }

  lemma Checked04Protected(c: Config04, payload: seq<byte>, send: u32, recv: u32)
    requires P04(c).Supports(payload)
    ensures P04(c).Fits(Protected04(payload, c, send % TWO16))
    ensures Checked04(Protected04(payload, c, send % TWO16), c, recv % TWO16)
         == (Sequence((send - recv) % TWO16, c.maxDelta), send % TWO16)
  {
    hide Protected04, Seal04, ReadU16, ReadU32, Sequence;
    Protected04Passes(payload, c, send % TWO16);
    WordDelta(send, recv);
  }

  lemma Checked07Protected(c: Config07, payload: seq<byte>, send: u32, recv: u32)
    requires P07(c).Supports(payload)
    ensures P07(c).Fits(Protected07(payload, c, send))
    ensures Checked07(Protected07(payload, c, send), c, recv)
         == (Sequence((send - recv) % TWO32, c.maxDelta), send % TWO32)
  {
    hide Protected07, Seal07, ReadU32, Sequence;
    Protected07Passes(payload, c, send);
  }

  /**
   A sealed payload is judged by its counter's modular distance alone: repeated at distance 0, ok up to the
   configured jump, out of sequence beyond.
   */
  lemma CheckedProtected(profile: Profile, payload: seq<byte>, send: u32, recv: u32)
    requires profile.Supports(payload)
    ensures profile.Fits(profile.Protected(payload, send))
    ensures
      var (verdict, counter) := profile.Checked(profile.Protected(payload, send), recv);
      && counter == send % profile.Modulus()
      && Judged((send - recv) % profile.Modulus(), profile.MaxDelta(), verdict)
  {
    SequenceJudges((send - recv) % profile.Modulus(), profile.MaxDelta());
    hide Protected01, Protected02, Protected04, Protected07, Checked01, Checked02, Checked04, Checked07, Sequence;
    match profile {
      case P01(c) => Checked01Protected(c, payload, send, recv);
      case P02(c) => Checked02Protected(c, payload, send, recv);
      case P04(c) => Checked04Protected(c, payload, send, recv);
      case P07(c) => Checked07Protected(c, payload, send, recv);
    }
  }

  /** Too short for the profile, or with another length than its length field says. */
  predicate Malformed(profile: Profile, payload: seq<byte>) {
    match profile
    case P01(_) => |payload| < 2
    case P02(_) => |payload| < 2
    case P04(_) => |payload| < 12 || ReadU16(payload, 0) != |payload|
    case P07(_) => |payload| < 20 || ReadU32(payload, 0) != |payload|
  }

  /** A payload that is not authentic is rejected and leaves a reduced counter as it is. */
  lemma CheckedNoise(profile: Profile, payload: seq<byte>, recv: u32)
    requires profile.Fits(payload) && !profile.Authentic(payload) && recv < profile.Modulus()
    ensures profile.Checked(payload, recv) == (if Malformed(profile, payload) then Error else WrongCrc, recv)
  {
    hide Seal8, Seal04, Seal07, ReadU16, ReadU32;
  }

  // ---- Runs --------------------------------------------------------------------------------------

  /** `Deliver(k)` hands the k-th sent message to the receiver, whenever and however often. */
  datatype Event = Send(msg: seq<byte>) | Deliver(k: nat) | Noise(msg: seq<byte>)

  datatype World = World(sent: seq<seq<byte>>, sendCounter: u32, recvCounter: u32)

  const FRESH := World([], 1, 0)

  ghost predicate Enabled(profile: Profile, w: World, e: Event) {
    match e
    case Send(msg) => |msg| > HEADER_SIZE && profile.Supports(msg[HEADER_SIZE..])
    case Deliver(k) => k < |w.sent|
    case Noise(msg) =>
      |msg| > HEADER_SIZE ==> profile.Fits(msg[HEADER_SIZE..]) && !profile.Authentic(msg[HEADER_SIZE..])
  }

  /** What an event does, by the protect and check stages. */
  ghost function Step(profile: Profile, w: World, e: Event): (World, seq<Result>)
    requires Enabled(profile, w, e) && Sound(profile, w)
  {
    match e
    case Send(msg) =>
      (World(w.sent + [profile.ProtectedMessage(msg, w.sendCounter)],
             profile.NextCounter(msg, w.sendCounter), w.recvCounter), [])
    case Deliver(k) =>
      var (verdict, counter) := profile.CheckedMessage(w.sent[k], w.recvCounter);
      (w.(recvCounter := counter), [verdict])
    case Noise(msg) =>
      var (verdict, counter) := profile.CheckedMessage(msg, w.recvCounter);
      (w.(recvCounter := counter), [verdict])
  }

  /** Every sent message fits the profile, so the receiver may look at it. */
  ghost predicate Sound(profile: Profile, w: World) {
    forall k :: 0 <= k < |w.sent| ==> |w.sent[k]| > HEADER_SIZE ==> profile.Fits(w.sent[k][HEADER_SIZE..])
  }

  ghost predicate Possible(profile: Profile, w: World, events: seq<Event>)
    decreases |events|
  {
    && Sound(profile, w)
    && (|events| > 0 ==>
      Enabled(profile, w, events[0]) && Possible(profile, Step(profile, w, events[0]).0, events[1..]))
  }

  ghost function Verdicts(profile: Profile, w: World, events: seq<Event>): seq<Result>
    requires Possible(profile, w, events)
    decreases |events|
  {
    if |events| == 0 then []
    else
      var (next, verdicts) := Step(profile, w, events[0]);
      verdicts + Verdicts(profile, next, events[1..])
  }

  // ---- The specification: unbounded message numbers -----------------------------------------------

  /**
   The verdicts as they follow from message numbers alone: `seen` is one more than the number of the
   last CRC-valid message received, 0 at the start.
   */
  ghost predicate AsPredicted(profile: Profile, seen: nat, events: seq<Event>, verdicts: seq<Result>)
    decreases |events|
  {
    if |events| == 0 then verdicts == []
    else match events[0]
      case Send(_) => AsPredicted(profile, seen, events[1..], verdicts)
      case Deliver(k) =>
        && |verdicts| > 0
        && Judged((k + 1 - seen) % profile.Modulus(), profile.MaxDelta(), verdicts[0])
        && AsPredicted(profile, k + 1, events[1..], verdicts[1..])
      case Noise(msg) =>
        && |verdicts| > 0
        && verdicts[0] == NoiseVerdict(profile, msg)
        && AsPredicted(profile, seen, events[1..], verdicts[1..])
  }

  function NoiseVerdict(profile: Profile, msg: seq<byte>): Result {
    if |msg| <= HEADER_SIZE || Malformed(profile, msg[HEADER_SIZE..]) then Error else WrongCrc
  }

  ghost predicate SealedAs(profile: Profile, wire: seq<byte>, k: nat) {
    && |wire| > HEADER_SIZE
    && exists payload ::
      profile.Supports(payload) && wire[HEADER_SIZE..] == profile.Protected(payload, (k + 1) % TWO32)
  }

  ghost predicate Inv(profile: Profile, w: World, seen: nat) {
    && w.sendCounter == (|w.sent| + 1) % TWO32
    && w.recvCounter == seen % profile.Modulus()
    && (forall k :: 0 <= k < |w.sent| ==> SealedAs(profile, w.sent[k], k))
  }

  lemma WrapDelta(a: nat, b: nat, m: nat)
    requires m in {16, TWO16, TWO32}
    ensures (a % TWO32 - b % m) % m == (a - b) % m && a % TWO32 % m == a % m
  {
    var f := if m == 16 then 0x1000_0000 else if m == TWO16 then TWO16 else 1;
    assert TWO32 == m * f;
    assert TWO32 * (a / TWO32) == m * (f * (a / TWO32));
    ModCongruent(a % TWO32, a, m, -(f * (a / TWO32)));
    ModCongruent(a % TWO32 - b % m, a - b, m, b / m - f * (a / TWO32));
  }

  lemma DeliverStep(profile: Profile, w: World, seen: nat, k: nat)
    requires Inv(profile, w, seen) && Sound(profile, w) && k < |w.sent|
    ensures
      var verdicts := Step(profile, w, Deliver(k)).1;
      |verdicts| == 1 && Judged((k + 1 - seen) % profile.Modulus(), profile.MaxDelta(), verdicts[0])
    ensures Inv(profile, Step(profile, w, Deliver(k)).0, k + 1)
  {
    hide Profile.Protected, Profile.Checked, Profile.Fits, Profile.Supports, Profile.Modulus, Profile.MaxDelta;
    hide Judged;
    assert SealedAs(profile, w.sent[k], k);
    var payload :| profile.Supports(payload)
                && w.sent[k][HEADER_SIZE..] == profile.Protected(payload, (k + 1) % TWO32);
    CheckedProtected(profile, payload, (k + 1) % TWO32, w.recvCounter);
    WrapDelta(k + 1, seen, profile.Modulus());
  }

  lemma SendStep(profile: Profile, w: World, seen: nat, msg: seq<byte>)
    requires Inv(profile, w, seen) && Sound(profile, w) && Enabled(profile, w, Send(msg))
    ensures Inv(profile, Step(profile, w, Send(msg)).0, seen)
  {
    hide Profile.Protected, Profile.Checked, Profile.Fits, Profile.Supports, Profile.Modulus, Profile.MaxDelta, Splice;
    var wire := profile.ProtectedMessage(msg, w.sendCounter);
    assert wire[HEADER_SIZE..] == profile.Protected(msg[HEADER_SIZE..], (|w.sent| + 1) % TWO32);
    assert SealedAs(profile, wire, |w.sent|);
    ModSuccessor(|w.sent| + 1);
  }

  lemma ModSuccessor(n: nat)
    ensures (n % TWO32 + 1) % TWO32 == (n + 1) % TWO32
  {
    ModCongruent(n % TWO32 + 1, n + 1, TWO32, -(n / TWO32));
  }

  lemma NoiseStep(profile: Profile, w: World, seen: nat, msg: seq<byte>)
    requires Inv(profile, w, seen) && Sound(profile, w) && Enabled(profile, w, Noise(msg))
    ensures Inv(profile, Step(profile, w, Noise(msg)).0, seen)
    ensures Step(profile, w, Noise(msg)).1 == [NoiseVerdict(profile, msg)]
  {
    hide Malformed;
    hide Profile.Protected, Profile.Checked, Profile.Fits, Profile.Supports, Profile.Authentic, Profile.MaxDelta;
    if |msg| > HEADER_SIZE {
      CheckedNoise(profile, msg[HEADER_SIZE..], w.recvCounter);
    }
  }

  lemma VerdictsUnfold(profile: Profile, w: World, events: seq<Event>)
    requires Possible(profile, w, events) && |events| > 0
    ensures Possible(profile, Step(profile, w, events[0]).0, events[1..])
    ensures Verdicts(profile, w, events)
         == Step(profile, w, events[0]).1 + Verdicts(profile, Step(profile, w, events[0]).0, events[1..])
  {
    hide Step, Sound, Enabled;
  }

  /** On every run, over all counter wraps, the verdicts are the predicted ones. */
  lemma {:induction false} RunIsPredicted(profile: Profile, w: World, seen: nat, events: seq<Event>)
    requires Inv(profile, w, seen) && Possible(profile, w, events)
    ensures AsPredicted(profile, seen, events, Verdicts(profile, w, events))
    decreases |events|
  {
    hide Step, Sound, Inv, Enabled, Judged, NoiseVerdict;
    if |events| > 0 {
      VerdictsUnfold(profile, w, events);
      var next := Step(profile, w, events[0]).0;
      var later := Verdicts(profile, next, events[1..]);
      match events[0] {
        case Send(msg) =>
          SendStep(profile, w, seen, msg);
          SendSilent(profile, w, msg);
          RunIsPredicted(profile, next, seen, events[1..]);
          assert [] + later == later;
        case Deliver(k) =>
          DeliverEnabled(profile, w, k);
          DeliverStep(profile, w, seen, k);
          RunIsPredicted(profile, next, k + 1, events[1..]);
          assert Verdicts(profile, w, events)[1..] == later;
        case Noise(msg) =>
          NoiseStep(profile, w, seen, msg);
          RunIsPredicted(profile, next, seen, events[1..]);
          assert Verdicts(profile, w, events)[1..] == later;
      }
    }
  }

  lemma SendSilent(profile: Profile, w: World, msg: seq<byte>)
    requires Sound(profile, w) && Enabled(profile, w, Send(msg))
    ensures Step(profile, w, Send(msg)).1 == []
  {
    hide Profile.Protected, Profile.Checked, Profile.Fits, Profile.Supports;
  }

  lemma DeliverEnabled(profile: Profile, w: World, k: nat)
    requires Enabled(profile, w, Deliver(k))
    ensures k < |w.sent|
  {
  }

  lemma FreshRunIsPredicted(profile: Profile, events: seq<Event>)
    requires Possible(profile, FRESH, events)
    ensures AsPredicted(profile, 0, events, Verdicts(profile, FRESH, events))
  {
    RunIsPredicted(profile, FRESH, 0, events);
  }

  /** One more than the number of the message delivered last, or `seen` if none is delivered. */
  function SeenAfter(seen: nat, events: seq<Event>): nat
    decreases |events|
  {
    if |events| == 0 then seen
    else SeenAfter(if events[0].Deliver? then events[0].k + 1 else seen, events[1..])
  }

  lemma {:induction false} LastIsJudged(
      profile: Profile, seen: nat, events: seq<Event>, k: nat, verdicts: seq<Result>)
    requires AsPredicted(profile, seen, events + [Deliver(k)], verdicts)
    ensures |verdicts| > 0
    ensures
      var distance := (k + 1 - SeenAfter(seen, events)) % profile.Modulus();
      Judged(distance, profile.MaxDelta(), verdicts[|verdicts| - 1])
    decreases |events|
  {
    hide Judged, NoiseVerdict;
    var all := events + [Deliver(k)];
    if |events| == 0 {
      assert all[1..] == [];
    } else {
      assert all[0] == events[0] && all[1..] == events[1..] + [Deliver(k)];
      match events[0] {
        case Send(_) => LastIsJudged(profile, seen, events[1..], k, verdicts);
        case Deliver(j) => LastIsJudged(profile, j + 1, events[1..], k, verdicts[1..]);
        case Noise(_) => LastIsJudged(profile, seen, events[1..], k, verdicts[1..]);
      }
    }
  }

  lemma {:induction false} SeenLast(seen: nat, before: seq<Event>, k: nat, between: seq<Event>)
    requires forall i :: 0 <= i < |between| ==> !between[i].Deliver?
    ensures SeenAfter(seen, before + [Deliver(k)] + between) == k + 1
    decreases |before| + |between|
  {
    var all := before + [Deliver(k)] + between;
    if |before| > 0 {
      assert all[1..] == before[1..] + [Deliver(k)] + between;
      SeenLast(if before[0].Deliver? then before[0].k + 1 else seen, before[1..], k, between);
    } else {
      assert all[1..] == between;
      SeenKept(k + 1, between);
    }
  }

  lemma {:induction false} SeenKept(seen: nat, between: seq<Event>)
    requires forall i :: 0 <= i < |between| ==> !between[i].Deliver?
    ensures SeenAfter(seen, between) == seen
    decreases |between|
  {
    if |between| > 0 {
      SeenKept(seen, between[1..]);
    }
  }

  /**
   In every run, a message delivered again is reported as repeated and not forwarded, whatever is sent and
   whatever noise arrives in between, as long as no other genuine message does.
   */
  lemma ReplayIsRefused(profile: Profile, before: seq<Event>, k: nat, between: seq<Event>)
    requires forall i :: 0 <= i < |between| ==> !between[i].Deliver?
    requires Possible(profile, FRESH, before + [Deliver(k)] + between + [Deliver(k)])
    ensures
      var verdicts := Verdicts(profile, FRESH, before + [Deliver(k)] + between + [Deliver(k)]);
      |verdicts| > 0 && verdicts[|verdicts| - 1] == Repeated
  {
    hide Possible, Verdicts, AsPredicted;
    var events := before + [Deliver(k)] + between;
    FreshRunIsPredicted(profile, events + [Deliver(k)]);
    LastIsJudged(profile, 0, events, k, Verdicts(profile, FRESH, events + [Deliver(k)]));
    SeenLast(0, before, k, between);
  }

  // ---- The lossless channel ------------------------------------------------------------------------

  /**
   Nothing is lost, repeated, reordered or invented: deliveries come in the order of the messages, each
   some time after it was sent. `sent` messages have been sent so far and `next` of them delivered.
   */
  ghost predicate InOrder(profile: Profile, sent: nat, next: nat, events: seq<Event>)
    decreases |events|
  {
    |events| > 0 ==> match events[0]
      case Send(msg) =>
        && |msg| > HEADER_SIZE && profile.Supports(msg[HEADER_SIZE..])
        && InOrder(profile, sent + 1, next, events[1..])
      case Deliver(k) => k == next < sent && InOrder(profile, sent, next + 1, events[1..])
      case Noise(_) => false
  }

  function Deliveries(events: seq<Event>): nat
    decreases |events|
  {
    if |events| == 0 then 0 else (if events[0].Deliver? then 1 else 0) + Deliveries(events[1..])
  }

  ghost predicate AllOk(verdicts: seq<Result>) {
    forall k :: 0 <= k < |verdicts| ==> verdicts[k] == Ok
  }

  lemma NextIsOneAhead(profile: Profile, next: nat)
    ensures (next + 1 - next) % profile.Modulus() == 1
  {
  }

  lemma AllOkCons(verdicts: seq<Result>)
    requires |verdicts| > 0 && verdicts[0] == Ok && AllOk(verdicts[1..])
    ensures AllOk(verdicts)
  {
    assert forall k :: 0 < k < |verdicts| ==> verdicts[k] == verdicts[1..][k - 1];
  }

  lemma {:induction false} InOrderOk(
      profile: Profile, sent: nat, next: nat, events: seq<Event>, verdicts: seq<Result>)
    requires profile.MaxDelta() >= 1 && InOrder(profile, sent, next, events)
    requires AsPredicted(profile, next, events, verdicts)
    ensures |verdicts| == Deliveries(events) && AllOk(verdicts)
    decreases |events|
  {
    hide Profile.MaxDelta, Profile.Modulus, Profile.Supports, NoiseVerdict;
    if |events| > 0 {
      if events[0].Send? {
        InOrderOk(profile, sent + 1, next, events[1..], verdicts);
      } else {
        NextIsOneAhead(profile, next);
        InOrderOk(profile, sent, next + 1, events[1..], verdicts[1..]);
        AllOkCons(verdicts);
      }
    }
  }

  /** If the configured jump is 0, already the first message is out of sequence. */
  lemma {:induction false} FirstIsRefused(
      profile: Profile, sent: nat, next: nat, events: seq<Event>, verdicts: seq<Result>)
    requires profile.MaxDelta() == 0 && InOrder(profile, sent, next, events) && Deliveries(events) > 0
    requires AsPredicted(profile, next, events, verdicts)
    ensures !AllOk(verdicts)
    decreases |events|
  {
    hide Profile.MaxDelta, Profile.Supports;
    if events[0].Send? {
      FirstIsRefused(profile, sent + 1, next, events[1..], verdicts);
    } else {
      NextIsOneAhead(profile, next);
      assert verdicts[0] != Ok;
    }
  }

  lemma InvIsSound(profile: Profile, w: World, seen: nat)
    requires Inv(profile, w, seen)
    ensures Sound(profile, w)
  {
    hide Profile.Protected, Profile.Checked, Profile.Fits, Profile.Supports, Profile.Modulus, Profile.MaxDelta;
    forall k | 0 <= k < |w.sent| ensures profile.Fits(w.sent[k][HEADER_SIZE..]) {
      assert SealedAs(profile, w.sent[k], k);
      var payload :| profile.Supports(payload)
                  && w.sent[k][HEADER_SIZE..] == profile.Protected(payload, (k + 1) % TWO32);
      CheckedProtected(profile, payload, (k + 1) % TWO32, 0);
    }
  }

  lemma SendGrows(profile: Profile, w: World, msg: seq<byte>)
    requires Sound(profile, w) && Enabled(profile, w, Send(msg))
    ensures |Step(profile, w, Send(msg)).0.sent| == |w.sent| + 1
  {
    hide Profile.Protected, Profile.Checked, Profile.Fits, Profile.Supports;
  }

  lemma DeliverKeeps(profile: Profile, w: World, k: nat)
    requires Sound(profile, w) && Enabled(profile, w, Deliver(k))
    ensures Step(profile, w, Deliver(k)).0.sent == w.sent
  {
    hide Profile.Protected, Profile.Checked, Profile.Fits, Profile.Supports;
  }

  lemma {:induction false} InOrderPossible(profile: Profile, w: World, seen: nat, next: nat, events: seq<Event>)
    requires Inv(profile, w, seen) && InOrder(profile, |w.sent|, next, events)
    ensures Possible(profile, w, events)
    decreases |events|
  {
    hide Step, Sound, Inv, Profile.Supports;
    InvIsSound(profile, w, seen);
    if |events| > 0 {
      match events[0] {
        case Send(msg) =>
          SendStep(profile, w, seen, msg);
          SendGrows(profile, w, msg);
          InOrderPossible(profile, Step(profile, w, events[0]).0, seen, next, events[1..]);
        case Deliver(k) =>
          DeliverStep(profile, w, seen, k);
          DeliverKeeps(profile, w, k);
          InOrderPossible(profile, Step(profile, w, events[0]).0, k + 1, next + 1, events[1..]);
      }
    }
  }

  /**
   Over a lossless in-order channel every message checks ok, for ever, however many messages the channel
   holds and whenever it delivers them, exactly if the configuration allows the counter to move at all.
   */
  lemma LosslessAlwaysOk(profile: Profile, events: seq<Event>)
    requires InOrder(profile, 0, 0, events)
    ensures Possible(profile, FRESH, events)
    ensures profile.MaxDelta() >= 1 ==> |Verdicts(profile, FRESH, events)| == Deliveries(events)
    ensures AllOk(Verdicts(profile, FRESH, events)) <==> profile.MaxDelta() >= 1 || Deliveries(events) == 0
  {
    hide Step, Sound, Profile.Supports, Profile.MaxDelta, AllOk;
    InOrderPossible(profile, FRESH, 0, 0, events);
    RunIsPredicted(profile, FRESH, 0, events);
    var verdicts := Verdicts(profile, FRESH, events);
    if profile.MaxDelta() >= 1 {
      InOrderOk(profile, 0, 0, events, verdicts);
    } else if Deliveries(events) > 0 {
      FirstIsRefused(profile, 0, 0, events, verdicts);
    } else {
      NothingDelivered(profile, 0, 0, events, verdicts);
    }
  }

  lemma {:induction false} NothingDelivered(
      profile: Profile, sent: nat, next: nat, events: seq<Event>, verdicts: seq<Result>)
    requires InOrder(profile, sent, next, events) && Deliveries(events) == 0
    requires AsPredicted(profile, next, events, verdicts)
    ensures AllOk(verdicts)
    decreases |events|
  {
    hide Profile.Supports;
    if |events| > 0 {
      NothingDelivered(profile, sent + 1, next, events[1..], verdicts);
    }
  }

  // -- The instance in which the channel never holds two messages

  /** Each message is delivered once, right after it was sent; the first one has number n. */
  function AtOnce(msgs: seq<seq<byte>>, n: nat): seq<Event>
    decreases |msgs|
  {
    if |msgs| == 0 then [] else [Send(msgs[0]), Deliver(n)] + AtOnce(msgs[1..], n + 1)
  }

  ghost predicate AllSupported(profile: Profile, msgs: seq<seq<byte>>) {
    forall k :: 0 <= k < |msgs| ==> |msgs[k]| > HEADER_SIZE && profile.Supports(msgs[k][HEADER_SIZE..])
  }

  lemma {:induction false} AtOnceInOrder(profile: Profile, msgs: seq<seq<byte>>, n: nat)
    requires AllSupported(profile, msgs)
    ensures InOrder(profile, n, n, AtOnce(msgs, n)) && Deliveries(AtOnce(msgs, n)) == |msgs|
    decreases |msgs|
  {
    hide Profile.Supports;
    if |msgs| > 0 {
      var events := AtOnce(msgs, n);
      assert events[1..] == [Deliver(n)] + AtOnce(msgs[1..], n + 1);
      assert events[1..][1..] == AtOnce(msgs[1..], n + 1);
      AtOnceInOrder(profile, msgs[1..], n + 1);
    }
  }

  lemma AtOnceAlwaysOk(profile: Profile, msgs: seq<seq<byte>>)
    requires AllSupported(profile, msgs) && profile.MaxDelta() >= 1
    ensures Possible(profile, FRESH, AtOnce(msgs, 0))
    ensures
      var verdicts := Verdicts(profile, FRESH, AtOnce(msgs, 0));
      |verdicts| == |msgs| && AllOk(verdicts)
  {
    AtOnceInOrder(profile, msgs, 0);
    LosslessAlwaysOk(profile, AtOnce(msgs, 0));
  }
}
