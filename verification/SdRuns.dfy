/** Service Discovery over whole runs: offers, withdrawals and finds are accounted for. */
module SdRuns {
  import opened Sequences
  import opened SdEntry
  import opened SdDiscovery
  import SdBackoff
  import M = SdMessage

  // ---- What is counted ------------------------------------------------------------------------------

  function OfferFor(key: Key): Offer -> bool {
    (o: Offer) => o.key == key
  }

  predicate IsKey(e: Entry, key: Key) {
    e.service == key.service && e.instance == key.instance
  }

  /** The entries that withdraw the offer of a service: offers with a TTL of 0. */
  function WithdrawalOf(key: Key): Entry -> bool {
    (e: Entry) => e.kind == OFFER_SERVICE && e.ttl == 0 && IsKey(e, key)
  }

  function FindFor(key: Key): Entry -> bool {
    (e: Entry) => e.kind == FIND_SERVICE && IsKey(e, key)
  }

  /** All entries of a list of messages. */
  function Entries(messages: seq<M.Message>): seq<Entry> {
    if |messages| == 0 then [] else Entries(messages[..|messages| - 1]) + messages[|messages| - 1].entries
  }

  function Started(events: seq<Event>, key: Key): nat {
    Count(events, (e: Event) => e.StartOffer? && e.key == key)
  }

  function FindsStarted(events: seq<Event>, key: Key): nat {
    Count(events, (e: Event) => e.StartFind? && e.key == key)
  }

  /** The calls of StopOffer that found an offer to stop. */
  function Stopped(cfg: Config, events: seq<Event>, key: Key): nat {
    if |events| == 0 then 0
    else
      var n := |events| - 1;
      Stopped(cfg, events[..n], key)
      + if events[n] == Event.StopOffer(key) && Live(Run(cfg, events[..n]).0, key) > 0 then 1 else 0
  }

  function Live(s: State, key: Key): nat {
    Count(s.offers, OfferFor(key))
  }

  // ---- Entries of one step ---------------------------------------------------------------------------

  lemma OneMoreMessage(messages: seq<M.Message>, m: M.Message)
    ensures Entries(messages + [m]) == Entries(messages) + m.entries
  {
    assert (messages + [m])[..|messages|] == messages;
  }

  lemma {:induction false} EntriesAppend(a: seq<M.Message>, b: seq<M.Message>)
    ensures Entries(a + b) == Entries(a) + Entries(b)
    decreases |b|
  {
    if |b| == 0 {
      assert a + b == a;
    } else {
      hide Entries;
      var front, m := b[..|b| - 1], b[|b| - 1];
      EntriesAppend(a, front);
      LastApart(a, b);
      OneMoreMessage(front, m);
      OneMoreMessage(a + front, m);
      Regroup(Entries(a), Entries(front), m.entries);
    }
  }

  lemma EntriesIfAny(m: M.Message)
    ensures Entries(IfAny(m)) == m.entries
  {
    assert [m][..0] == [];
  }

  /** A tick sends the withdrawals first, then the offers, then the finds. */
  lemma TickEntries(cfg: Config, s: State, now: int)
    ensures Entries(TickMessages(cfg, s, now))
         == StopEntries(s.stops) + OfferEntries(cfg, s.offers, now) + FindEntries(cfg, s.finds, now)
  {
    hide StopEntries, OfferEntries, FindEntries, IfAny;
    EntriesAppend(IfAny(OfferMessage(cfg, s, now)), IfAny(FindMessage(cfg, s, now)));
    EntriesIfAny(OfferMessage(cfg, s, now));
    EntriesIfAny(FindMessage(cfg, s, now));
  }

  lemma {:induction false} OfferEntriesAreOffers(cfg: Config, offers: seq<Offer>, now: int)
    ensures forall e :: e in OfferEntries(cfg, offers, now) ==> e.kind == OFFER_SERVICE && e.ttl == cfg.offerTtl
    decreases |offers|
  {
    if |offers| > 0 {
      OfferEntriesAreOffers(cfg, offers[..|offers| - 1], now);
    }
  }

  lemma {:induction false} FindEntriesAreFinds(cfg: Config, finds: seq<Find>, now: int)
    ensures forall e :: e in FindEntries(cfg, finds, now) ==> e.kind == FIND_SERVICE
    decreases |finds|
  {
    if |finds| > 0 {
      FindEntriesAreFinds(cfg, finds[..|finds| - 1], now);
    }
  }

  /** The finds that a tick sends, in order. */
  function DueFinds(finds: seq<Find>, now: int): seq<Find> {
    if |finds| == 0 then []
    else
      var n := |finds| - 1;
      if Due(finds[n].timer, now) then DueFinds(finds[..n], now) + [finds[n]] else DueFinds(finds[..n], now)
  }

  /** One entry for every due find, in order, for its service and versions. */
  lemma {:induction false} TickSendsDueFinds(cfg: Config, finds: seq<Find>, now: int)
    ensures
      var es, due := FindEntries(cfg, finds, now), DueFinds(finds, now);
      && |es| == |due|
      && forall j :: 0 <= j < |due| ==>
        && es[j].kind == FIND_SERVICE && Key(es[j].service, es[j].instance) == due[j].key
        && es[j].major == due[j].major && es[j].minor == due[j].minor && es[j].ttl == cfg.findTtl
        && es[j].count1 == 0 && es[j].count2 == 0
    decreases |finds|
  {
    hide Due;
    if |finds| > 0 {
      TickSendsDueFinds(cfg, finds[..|finds| - 1], now);
    }
  }

  function EntryFor(key: Key): Entry -> bool {
    (e: Entry) => IsKey(e, key)
  }

  /** The offers of a tick that look like withdrawals: all of them, were the configured TTL 0. */
  function Lookalikes(cfg: Config, s: State, now: int, key: Key): nat {
    if cfg.offerTtl == 0 then Count(OfferEntries(cfg, s.offers, now), EntryFor(key)) else 0
  }

  lemma LookalikesCounted(cfg: Config, s: State, now: int, key: Key)
    ensures Count(OfferEntries(cfg, s.offers, now), WithdrawalOf(key)) == Lookalikes(cfg, s, now, key)
  {
    hide OfferEntries, Count;
    var offers := OfferEntries(cfg, s.offers, now);
    OfferEntriesAreOffers(cfg, s.offers, now);
    if cfg.offerTtl == 0 {
      CountPointwise(offers, offers, WithdrawalOf(key), EntryFor(key));
    } else {
      CountNone(offers, WithdrawalOf(key));
    }
  }

  lemma WithdrawalsSent(cfg: Config, s: State, now: int, key: Key)
    ensures Count(Entries(TickMessages(cfg, s, now)), WithdrawalOf(key))
         == Count(s.stops, OfferFor(key)) + Lookalikes(cfg, s, now, key)
  {
    hide OfferEntries, FindEntries, TickMessages, Count, Lookalikes;
    TickEntries(cfg, s, now);
    var offers, finds := OfferEntries(cfg, s.offers, now), FindEntries(cfg, s.finds, now);
    LookalikesCounted(cfg, s, now, key);
    FindEntriesAreFinds(cfg, s.finds, now);
    CountNone(finds, WithdrawalOf(key));
    CountPointwise(s.stops, StopEntries(s.stops), OfferFor(key), WithdrawalOf(key));
    CountAppend(StopEntries(s.stops) + offers, finds, WithdrawalOf(key));
    CountAppend(StopEntries(s.stops), offers, WithdrawalOf(key));
  }

  lemma TickKeepsOffers(cfg: Config, s: State, now: int, key: Key)
    ensures Live(Ticked(cfg, s, now), key) == Live(s, key)
  {
    CountPointwise(s.offers, Ticked(cfg, s, now).offers, OfferFor(key), OfferFor(key));
  }

  lemma StopMovesOffer(s: State, stopped: Key, key: Key)
    ensures
      var t, n := OfferStopped(s, stopped), if stopped == key && Live(s, key) > 0 then 1 else 0;
      Live(t, key) == Live(s, key) - n && Count(t.stops, OfferFor(key)) == Count(s.stops, OfferFor(key)) + n
  {
    hide Count, FirstOffer;
    var i := FirstOffer(s.offers, stopped);
    if i < |s.offers| {
      var o := s.offers[i];
      CountAppend(s.stops, [o], OfferFor(key));
      CountOne(o, OfferFor(key));
      if stopped == key {
        CountRemoved(s.offers, i, OfferFor(key));
      } else {
        KeepsOthers(s.offers, i, key);
      }
    } else if stopped == key {
      CountNone(s.offers, OfferFor(key));
    }
  }

  lemma KeepsOthers(offers: seq<Offer>, i: nat, key: Key)
    requires i < |offers| && offers[i].key != key
    ensures Count(offers[..i] + offers[i + 1..], OfferFor(key)) == Count(offers, OfferFor(key))
  {
    hide Count;
    var p := OfferFor(key);
    assert offers == offers[..i] + ([offers[i]] + offers[i + 1..]);
    CountAppend(offers[..i], [offers[i]] + offers[i + 1..], p);
    CountAppend([offers[i]], offers[i + 1..], p);
    CountOne(offers[i], p);
    CountAppend(offers[..i], offers[i + 1..], p);
  }

  // ---- Offers are accounted for ------------------------------------------------------------------------

  lemma OfferStep(cfg: Config, s: State, e: Event, key: Key)
    ensures
      var (t, sent) := Step(cfg, s, e);
      var started := if e.StartOffer? && e.key == key then 1 else 0;
      var stopped := if e == Event.StopOffer(key) && Live(s, key) > 0 then 1 else 0;
      && Live(t, key) == Live(s, key) + started - stopped
      && Count(Entries(sent), WithdrawalOf(key)) + Count(t.stops, OfferFor(key))
      == Count(s.stops, OfferFor(key)) + stopped + if e.Tick? then Lookalikes(cfg, s, e.now, key) else 0
  {
    hide Count, TickMessages, Ticked, OfferStopped, Lookalikes;
    CountNothing(key);
    match e
    case StartOffer(k, major, minor, options, now) =>
      var o := Offer(k, major, minor, options, SdDiscovery.Started(cfg, now));
      CountAppend(s.offers, [o], OfferFor(key));
      CountOne(o, OfferFor(key));
    case StopOffer(k) => StopMovesOffer(s, k, key);
    case Tick(now) =>
      TickKeepsOffers(cfg, s, now, key);
      WithdrawalsSent(cfg, s, now, key);
      TickClears(cfg, s, now);
    case _ =>
  }

  lemma TickClears(cfg: Config, s: State, now: int)
    ensures Ticked(cfg, s, now).stops == []
  {
  }

  lemma CountNothing(key: Key)
    ensures Count<Offer>([], OfferFor(key)) == 0 && Count(Entries([]), WithdrawalOf(key)) == 0
    ensures Count(Entries([]), FindFor(key)) == 0
  {
  }

  /** All offers of a run that look like withdrawals. */
  function AllLookalikes(cfg: Config, events: seq<Event>, key: Key): (n: nat)
    ensures cfg.offerTtl != 0 ==> n == 0
  {
    if |events| == 0 then 0
    else
      var front, e := events[..|events| - 1], events[|events| - 1];
      AllLookalikes(cfg, front, key) + if e.Tick? then Lookalikes(cfg, Run(cfg, front).0, e.now, key) else 0
  }

  /**
   Over every run: the live offers of a service are the starts minus the successful stops, and every
   successful stop has been announced by exactly one withdrawal or still waits for the next tick. Other
   entries look like withdrawals only if the configured TTL is 0: then all offers do.
   */
  lemma {:induction false} OffersAreAccountedFor(cfg: Config, events: seq<Event>, key: Key)
    ensures
      var (s, sent) := Run(cfg, events);
      && Live(s, key) + Stopped(cfg, events, key) == Started(events, key)
      && Count(Entries(sent), WithdrawalOf(key)) + Count(s.stops, OfferFor(key))
      == Stopped(cfg, events, key) + AllLookalikes(cfg, events, key)
    decreases |events|
  {
    hide Step, Lookalikes;
    if |events| == 0 {
      CountNothing(key);
    } else {
      var n := |events| - 1;
      var (s, sent) := Run(cfg, events[..n]);
      var (t, more) := Step(cfg, s, events[n]);
      OffersAreAccountedFor(cfg, events[..n], key);
      OfferStep(cfg, s, events[n], key);
      EntriesAppend(sent, more);
      CountAppend(Entries(sent), Entries(more), WithdrawalOf(key));
    }
  }

  /** A tick sends everything that was pending: afterwards withdrawals sent and successful stops agree. */
  lemma TickAnnouncesStops(cfg: Config, events: seq<Event>, now: int, key: Key)
    ensures
      var run := events + [Tick(now)];
      Count(Entries(Run(cfg, run).1), WithdrawalOf(key)) == Stopped(cfg, events, key) + AllLookalikes(cfg, run, key)
  {
    hide AllLookalikes;
    var run := events + [Tick(now)];
    assert run[..|run| - 1] == events;
    OffersAreAccountedFor(cfg, run, key);
    CountNothing(key);
  }

  // ---- Finds are sent a bounded number of times ------------------------------------------------------------

  /** How often a find will still be sent. */
  function Remaining(cfg: Config, t: Timer): int {
    match t.phase
    case InitialWait => SdBackoff.Limit(cfg)
    case Repetition => SdBackoff.Limit(cfg) - t.count
    case _ => 0
  }

  ghost predicate FindTimer(cfg: Config, t: Timer) {
    t.phase != Main && (t.phase == Repetition ==> 1 <= t.count < SdBackoff.Limit(cfg))
  }

  function TotalRemaining(cfg: Config, finds: seq<Find>, key: Key): int {
    if |finds| == 0 then 0
    else
      var n := |finds| - 1;
      TotalRemaining(cfg, finds[..n], key) + if finds[n].key == key then Remaining(cfg, finds[n].timer) else 0
  }

  ghost predicate FindTimers(cfg: Config, finds: seq<Find>) {
    forall i :: 0 <= i < |finds| ==> FindTimer(cfg, finds[i].timer)
  }

  lemma OneFind(cfg: Config, f: Find, now: int)
    requires FindTimer(cfg, f.timer)
    ensures FindTimer(cfg, TickedFind(cfg, f, now).timer) && TickedFind(cfg, f, now).key == f.key
    ensures Remaining(cfg, TickedFind(cfg, f, now).timer)
         == Remaining(cfg, f.timer) - if Due(f.timer, now) then 1 else 0
  {
  }

  lemma {:induction false} TickSpendsFinds(cfg: Config, finds: seq<Find>, now: int, key: Key)
    requires FindTimers(cfg, finds)
    ensures FindTimers(cfg, TickedFinds(cfg, finds, now))
    ensures TotalRemaining(cfg, TickedFinds(cfg, finds, now), key) + Count(FindEntries(cfg, finds, now), FindFor(key))
         == TotalRemaining(cfg, finds, key)
    decreases |finds|
  {
    hide Due, Remaining, TickedFind, FindTimer;
    if |finds| > 0 {
      var n := |finds| - 1;
      TickSpendsFinds(cfg, finds[..n], now, key);
      assert TickedFinds(cfg, finds, now) == TickedFinds(cfg, finds[..n], now) + [TickedFind(cfg, finds[n], now)];
      OneFind(cfg, finds[n], now);
      OneFindEntry(cfg, FindEntries(cfg, finds[..n], now), finds[n], key);
    }
  }

  lemma OneFindEntry(cfg: Config, front: seq<Entry>, f: Find, key: Key)
    ensures Count(front + [FindEntry(cfg, f)], FindFor(key))
         == Count(front, FindFor(key)) + if f.key == key then 1 else 0
  {
    CountAppend(front, [FindEntry(cfg, f)], FindFor(key));
    CountOne(FindEntry(cfg, f), FindFor(key));
  }

  lemma FindsSent(cfg: Config, s: State, now: int, key: Key)
    ensures Count(Entries(TickMessages(cfg, s, now)), FindFor(key))
         == Count(FindEntries(cfg, s.finds, now), FindFor(key))
  {
    hide OfferEntries, FindEntries, TickMessages, Count;
    TickEntries(cfg, s, now);
    var stops, offers := StopEntries(s.stops), OfferEntries(cfg, s.offers, now);
    OfferEntriesAreOffers(cfg, s.offers, now);
    CountNone(stops, FindFor(key));
    CountNone(offers, FindFor(key));
    CountAppend(stops + offers, FindEntries(cfg, s.finds, now), FindFor(key));
    CountAppend(stops, offers, FindFor(key));
  }

  lemma {:induction false} StopDropsFinds(cfg: Config, finds: seq<Find>, stopped: Key, key: Key)
    requires FindTimers(cfg, finds)
    ensures FindTimers(cfg, Without(finds, stopped))
    ensures TotalRemaining(cfg, Without(finds, stopped), key)
         == if stopped == key then 0 else TotalRemaining(cfg, finds, key)
    decreases |finds|
  {
    hide Remaining, FindTimer, TotalRemaining;
    if |finds| == 0 {
      NothingRemains(cfg, key);
    } else {
      var n := |finds| - 1;
      StopDropsFinds(cfg, finds[..n], stopped, key);
      OneMoreRemaining(cfg, Without(finds[..n], stopped), finds[n], key);
      OneMoreRemaining(cfg, finds[..n], finds[n], key);
      assert finds == finds[..n] + [finds[n]];
      assert FindTimer(cfg, finds[n].timer);
    }
  }

  lemma OneMoreRemaining(cfg: Config, finds: seq<Find>, f: Find, key: Key)
    ensures TotalRemaining(cfg, finds + [f], key)
         == TotalRemaining(cfg, finds, key) + if f.key == key then Remaining(cfg, f.timer) else 0
  {
    assert (finds + [f])[..|finds|] == finds;
  }

  lemma {:induction false} NotNegative(cfg: Config, finds: seq<Find>, key: Key)
    requires FindTimers(cfg, finds)
    ensures TotalRemaining(cfg, finds, key) >= 0
    decreases |finds|
  {
    if |finds| > 0 {
      NotNegative(cfg, finds[..|finds| - 1], key);
    }
  }

  lemma FindStep(cfg: Config, s: State, e: Event, key: Key)
    requires FindTimers(cfg, s.finds)
    ensures
      var (t, sent) := Step(cfg, s, e);
      var started := if e.StartFind? && e.key == key then SdBackoff.Limit(cfg) else 0;
      var total := Count(Entries(sent), FindFor(key)) + TotalRemaining(cfg, t.finds, key);
      && FindTimers(cfg, t.finds)
      && total <= TotalRemaining(cfg, s.finds, key) + started
      && (e != Event.StopFind(key) ==> total == TotalRemaining(cfg, s.finds, key) + started)
  {
    hide Count, TickMessages, TickedFinds, Without, TotalRemaining, OfferStopped;
    CountNothing(key);
    match e
    case StartFind(k, major, minor, now) =>
      OneMoreRemaining(cfg, s.finds, Find(k, major, minor, SdDiscovery.Started(cfg, now)), key);
    case StopFind(k) =>
      StopDropsFinds(cfg, s.finds, k, key);
      NotNegative(cfg, s.finds, key);
    case Tick(now) =>
      TickSpendsFinds(cfg, s.finds, now, key);
      FindsSent(cfg, s, now, key);
    case StopOffer(k) => StopKeepsFinds(s, k);
    case _ =>
  }

  lemma StopKeepsFinds(s: State, key: Key)
    ensures OfferStopped(s, key).finds == s.finds
  {
  }

  /**
   Over every run: the find entries sent for a service plus those still to come are at most
   max(2, repetition_max) per StartFind, and exactly that many if the find is never stopped.
   */
  lemma {:induction false} FindsAreAccountedFor(cfg: Config, events: seq<Event>, key: Key)
    ensures
      var (s, sent) := Run(cfg, events);
      var total := Count(Entries(sent), FindFor(key)) + TotalRemaining(cfg, s.finds, key);
      && FindTimers(cfg, s.finds) && TotalRemaining(cfg, s.finds, key) >= 0
      && total <= FindsStarted(events, key) * SdBackoff.Limit(cfg)
      && (Event.StopFind(key) !in events ==> total == FindsStarted(events, key) * SdBackoff.Limit(cfg))
    decreases |events|
  {
    hide Step, TotalRemaining, FindTimers;
    if |events| == 0 {
      CountNothing(key);
      NothingRemains(cfg, key);
    } else {
      var n := |events| - 1;
      var (s, sent) := Run(cfg, events[..n]);
      var (t, more) := Step(cfg, s, events[n]);
      FindsAreAccountedFor(cfg, events[..n], key);
      FindStep(cfg, s, events[n], key);
      EntriesAppend(sent, more);
      CountAppend(Entries(sent), Entries(more), FindFor(key));
      NotNegative(cfg, t.finds, key);
      OneMoreStart(events, key, SdBackoff.Limit(cfg));
    }
  }

  lemma OneMoreStart(events: seq<Event>, key: Key, limit: nat)
    requires |events| > 0
    ensures
      var e := events[|events| - 1];
      FindsStarted(events, key) * limit
      == FindsStarted(events[..|events| - 1], key) * limit + if e.StartFind? && e.key == key then limit else 0
  {
  }

  lemma NothingRemains(cfg: Config, key: Key)
    ensures TotalRemaining(cfg, [], key) == 0 && FindTimers(cfg, [])
  {
  }
}
