/** What the ticks of a run put into messages, and from which calls it stems. */
module SdTicks {
  import opened Bytes
  import opened SdEntry
  import opened SdDiscovery
  import opened SdBackoff
  import R = SdRuns
  import P = SdOptions
  import O = SdOption
  import M = SdMessage

  // ---- The messages of one tick ---------------------------------------------------------------------------

  /** The first message holds withdrawals, offers and options, the second one finds; an empty one is not sent. */
  lemma TickSplits(cfg: Config, s: State, now: int)
    ensures
      var offers, finds := P.DueOffers(s.offers, now), R.DueFinds(s.finds, now);
      var first := M.Message(M.Flags(s.reboot, true), StopEntries(s.stops) + OfferEntries(cfg, s.offers, now),
                             P.AllOptions(offers));
      var second := M.Message(M.Flags(s.reboot, true), FindEntries(cfg, s.finds, now), []);
      TickMessages(cfg, s, now)
      == (if s.stops == [] && offers == [] then [] else [first]) + if finds == [] then [] else [second]
  {
    hide StopEntries, OfferEntries, FindEntries, P.DueOffers, R.DueFinds, OfferOptions, P.AllOptions;
    P.TickSendsDueOffers(cfg, s.offers, now);
    R.TickSendsDueFinds(cfg, s.finds, now);
    assert |StopEntries(s.stops) + OfferEntries(cfg, s.offers, now)| == |s.stops| + |P.DueOffers(s.offers, now)|;
    assert P.DueOffers(s.offers, now) == [] ==> |P.DueOffers(s.offers, now)| == 0;
  }

  /** Every field of the entries of a tick. */
  lemma EntriesSent(cfg: Config, s: State, now: int)
    ensures forall i :: 0 <= i < |s.stops| ==>
      var o := s.stops[i];
      StopEntries(s.stops)[i] == Entry(0x01, 0, 0, 0, 0, o.key.service, o.key.instance, o.major, 0, o.minor, 0)
    ensures
      var due := P.DueOffers(s.offers, now);
      |OfferEntries(cfg, s.offers, now)| == |due|
      && forall j :: 0 <= j < |due| ==>
        var o, n := due[j], |due[j].options|;
        OfferEntries(cfg, s.offers, now)[j]
        == Entry(0x01, if n == 0 then 0 else P.RunStart(due, j) % 256, 0, n % 256, 0,
                 o.key.service, o.key.instance, o.major, cfg.offerTtl, o.minor, 0)
    ensures
      var due := R.DueFinds(s.finds, now);
      |FindEntries(cfg, s.finds, now)| == |due|
      && forall j :: 0 <= j < |due| ==>
        var f := due[j];
        FindEntries(cfg, s.finds, now)[j]
        == Entry(0x00, 0, 0, 0, 0, f.key.service, f.key.instance, f.major, cfg.findTtl, f.minor, 0)
  {
    hide OfferEntries, FindEntries, P.DueOffers, R.DueFinds, P.RunStart, P.AllOptions, OfferOptions;
    P.TickSendsDueOffers(cfg, s.offers, now);
    FindFields(cfg, s.finds, now);
  }

  lemma {:induction false} FindFields(cfg: Config, finds: seq<Find>, now: int)
    ensures
      var es, due := FindEntries(cfg, finds, now), R.DueFinds(finds, now);
      |es| == |due| && forall j :: 0 <= j < |due| ==> es[j] == FindEntry(cfg, due[j])
    decreases |finds|
  {
    hide Due, FindEntry;
    if |finds| > 0 {
      FindFields(cfg, finds[..|finds| - 1], now);
    }
  }

  // ---- Stopping ---------------------------------------------------------------------------------------------

  /** Stopping an offer moves the first one of its service to the withdrawals and leaves all others in order. */
  lemma StopTakesFirst(s: State, key: Key, i: nat)
    requires i <= |s.offers| && forall j :: 0 <= j < i ==> s.offers[j].key != key
    ensures i == |s.offers| ==> OfferStopped(s, key) == s
    ensures i < |s.offers| && s.offers[i].key == key ==>
      OfferStopped(s, key) == State(s.offers[..i] + s.offers[i + 1..], s.stops + [s.offers[i]], s.finds, s.reboot)
  {
    hide FirstOffer;
    assert FirstOffer(s.offers, key) >= i;
  }

  /** Stopping a find removes all finds of its service and leaves all others in order. */
  lemma {:induction false} StopDropsEvery(a: seq<Find>, f: Find, b: seq<Find>, key: Key)
    ensures Without([], key) == []
    ensures Without(a + [f] + b, key) == Without(a, key) + (if f.key == key then [] else [f]) + Without(b, key)
    decreases |b|
  {
    var all := a + [f] + b;
    if |b| == 0 {
      assert all[..|all| - 1] == a && all[|all| - 1] == f;
    } else {
      var n := |b| - 1;
      assert all[..|all| - 1] == a + [f] + b[..n] && all[|all| - 1] == b[n];
      StopDropsEvery(a, f, b[..n], key);
    }
  }

  // ---- Whole runs -------------------------------------------------------------------------------------------

  /** The reboot flag as it was set last; true at the start. */
  function LatestFlag(events: seq<Event>): bool {
    if |events| == 0 then true
    else
      var e := events[|events| - 1];
      if e.SetReboot? then e.flag else LatestFlag(events[..|events| - 1])
  }

  lemma {:induction false} RebootIsLatest(cfg: Config, events: seq<Event>)
    ensures Run(cfg, events).0.reboot == LatestFlag(events)
    decreases |events|
  {
    if |events| > 0 {
      RebootIsLatest(cfg, events[..|events| - 1]);
    }
  }

  /** Every message of a tick says unicast, and reboot as it was set last before the tick. */
  lemma FlagsFollow(cfg: Config, events: seq<Event>, now: int)
    ensures
      var before, after := Run(cfg, events).1, Run(cfg, events + [Tick(now)]).1;
      && before <= after
      && forall i :: |before| <= i < |after| ==> after[i].flags == M.Flags(LatestFlag(events), true)
  {
    hide OfferEntries, FindEntries, StopEntries, OfferOptions;
    RebootIsLatest(cfg, events);
    var all := events + [Tick(now)];
    assert all[..|all| - 1] == events;
  }

  /** The times of the ticks in a run. */
  function TicksOf(events: seq<Event>): seq<int> {
    if |events| == 0 then []
    else
      var n := |events| - 1;
      if events[n].Tick? then TicksOf(events[..n]) + [events[n].now] else TicksOf(events[..n])
  }

  /** A call started this offer, and its timer is the one that starts then and lives through all ticks since. */
  ghost predicate OfferFrom(cfg: Config, events: seq<Event>, i: nat, o: Offer) {
    && i < |events| && events[i].StartOffer?
    && o.key == events[i].key && o.major == events[i].major && o.minor == events[i].minor
    && o.options == events[i].options
    && o.timer == Sends(cfg, ForOffer, Timer(InitialWait, events[i].now + cfg.initialDelayMin, 0),
                        TicksOf(events[i + 1..])).1
  }

  ghost predicate FindFrom(cfg: Config, events: seq<Event>, i: nat, f: Find) {
    && i < |events| && events[i].StartFind?
    && f.key == events[i].key && f.major == events[i].major && f.minor == events[i].minor
    && f.timer == Sends(cfg, ForFind, Timer(InitialWait, events[i].now + cfg.initialDelayMin, 0),
                        TicksOf(events[i + 1..])).1
  }

  lemma OneMoreEvent(events: seq<Event>, i: nat)
    requires |events| > 0 && i < |events| - 1
    ensures
      var n := |events| - 1;
      && events[..n][i] == events[i]
      && TicksOf(events[i + 1..])
      == TicksOf(events[..n][i + 1..]) + if events[n].Tick? then [events[n].now] else []
  {
    var n := |events| - 1;
    var rest := events[i + 1..];
    assert rest[|rest| - 1] == events[n] && rest[..|rest| - 1] == events[..n][i + 1..];
    assert TicksOf(events[..n][i + 1..]) + [] == TicksOf(events[..n][i + 1..]);
  }

  lemma SendsOnce(cfg: Config, role: Role, t: Timer, ticks: seq<int>, now: int)
    ensures
      var u := Sends(cfg, role, t, ticks).1;
      Sends(cfg, role, t, ticks + [now]).1 == if Due(u, now) then Advance(cfg, role, u, now) else u
  {
    assert (ticks + [now])[..|ticks|] == ticks;
  }

  lemma OfferLives(cfg: Config, events: seq<Event>, i: nat, o: Offer)
    requires |events| > 0 && OfferFrom(cfg, events[..|events| - 1], i, o)
    ensures
      var e := events[|events| - 1];
      OfferFrom(cfg, events, i, if e.Tick? then TickedOffer(cfg, o, e.now) else o)
  {
    hide Sends, Due, AdvanceOffer, TicksOf;
    var n := |events| - 1;
    OneMoreEvent(events, i);
    if events[n].Tick? {
      SendsOnce(cfg, ForOffer, Timer(InitialWait, events[i].now + cfg.initialDelayMin, 0),
                TicksOf(events[..n][i + 1..]), events[n].now);
    } else {
      assert TicksOf(events[..n][i + 1..]) + [] == TicksOf(events[..n][i + 1..]);
    }
  }

  lemma FindLives(cfg: Config, events: seq<Event>, i: nat, f: Find)
    requires |events| > 0 && FindFrom(cfg, events[..|events| - 1], i, f)
    ensures
      var e := events[|events| - 1];
      FindFrom(cfg, events, i, if e.Tick? then TickedFind(cfg, f, e.now) else f)
  {
    hide Sends, Due, AdvanceFind, TicksOf;
    var n := |events| - 1;
    OneMoreEvent(events, i);
    if events[n].Tick? {
      SendsOnce(cfg, ForFind, Timer(InitialWait, events[i].now + cfg.initialDelayMin, 0),
                TicksOf(events[..n][i + 1..]), events[n].now);
    } else {
      assert TicksOf(events[..n][i + 1..]) + [] == TicksOf(events[..n][i + 1..]);
    }
  }

  lemma NoTicks()
    ensures TicksOf([]) == []
    ensures forall cfg, role, t :: Sends(cfg, role, t, []) == ([], t)
  {
  }

  /**
  Over every run, whatever calls and ticks it mixes: every live offer stems from a call that started it, with
  the versions and options of that call, and its timer is the one that its start and the ticks since then give.
  */
  lemma {:induction false} OffersAreStarted(cfg: Config, events: seq<Event>)
    ensures forall o :: o in Run(cfg, events).0.offers ==> exists i: nat :: OfferFrom(cfg, events, i, o)
    decreases |events|
  {
    hide OfferFrom, TickedOffer, TickMessages, FirstOffer, Without;
    if |events| > 0 {
      var n := |events| - 1;
      var s, e := Run(cfg, events[..n]).0, events[n];
      OffersAreStarted(cfg, events[..n]);
      forall o | o in Run(cfg, events).0.offers
        ensures exists i: nat :: OfferFrom(cfg, events, i, o)
      {
        if e.StartOffer? && o !in s.offers {
          JustStarted(cfg, events);
          assert OfferFrom(cfg, events, n, o);
        } else {
          var j: nat := IndexBefore(cfg, s, e, o);
          assert s.offers[j] in s.offers;
          var i: nat :| OfferFrom(cfg, events[..n], i, s.offers[j]);
          OfferLives(cfg, events, i, s.offers[j]);
        }
      }
    }
  }

  lemma JustStarted(cfg: Config, events: seq<Event>)
    requires |events| > 0 && events[|events| - 1].StartOffer?
    ensures
      var e := events[|events| - 1];
      OfferFrom(cfg, events, |events| - 1,
                Offer(e.key, e.major, e.minor, e.options, SdDiscovery.Started(cfg, e.now)))
  {
    NoTicks();
    assert events[|events|..] == [];
  }

  /** Where an offer was before the event. */
  lemma IndexBefore(cfg: Config, s: State, e: Event, o: Offer) returns (j: nat)
    requires o in Step(cfg, s, e).0.offers && (e.StartOffer? ==> o in s.offers)
    ensures j < |s.offers| && o == if e.Tick? then TickedOffer(cfg, s.offers[j], e.now) else s.offers[j]
  {
    hide TickedOffer, TickMessages, FirstOffer, Without;
    if e.Tick? {
      j :| 0 <= j < |s.offers| && Step(cfg, s, e).0.offers[j] == o;
    } else {
      assert o in s.offers;
      j :| 0 <= j < |s.offers| && s.offers[j] == o;
    }
  }

  lemma {:induction false} WithoutKeeps(finds: seq<Find>, key: Key)
    ensures forall f :: f in Without(finds, key) ==> f in finds
    decreases |finds|
  {
    if |finds| > 0 {
      WithoutKeeps(finds[..|finds| - 1], key);
    }
  }

  lemma FindJustStarted(cfg: Config, events: seq<Event>)
    requires |events| > 0 && events[|events| - 1].StartFind?
    ensures
      var e := events[|events| - 1];
      FindFrom(cfg, events, |events| - 1, Find(e.key, e.major, e.minor, SdDiscovery.Started(cfg, e.now)))
  {
    NoTicks();
    assert events[|events|..] == [];
  }

  lemma FindIndexBefore(cfg: Config, s: State, e: Event, f: Find) returns (j: nat)
    requires f in Step(cfg, s, e).0.finds && (e.StartFind? ==> f in s.finds)
    ensures j < |s.finds| && f == if e.Tick? then TickedFind(cfg, s.finds[j], e.now) else s.finds[j]
  {
    hide TickedFind, TickMessages, FirstOffer, Without;
    if e.Tick? {
      j :| 0 <= j < |s.finds| && Step(cfg, s, e).0.finds[j] == f;
    } else {
      if e.StopFind? {
        WithoutKeeps(s.finds, e.key);
      }
      assert f in s.finds;
      j :| 0 <= j < |s.finds| && s.finds[j] == f;
    }
  }

  /** The same for finds. */
  lemma {:induction false} FindsAreStarted(cfg: Config, events: seq<Event>)
    ensures forall f :: f in Run(cfg, events).0.finds ==> exists i: nat :: FindFrom(cfg, events, i, f)
    decreases |events|
  {
    hide FindFrom, TickedFind, TickMessages, FirstOffer, Without;
    if |events| > 0 {
      var n := |events| - 1;
      var s, e := Run(cfg, events[..n]).0, events[n];
      FindsAreStarted(cfg, events[..n]);
      forall f | f in Run(cfg, events).0.finds
        ensures exists i: nat :: FindFrom(cfg, events, i, f)
      {
        if e.StartFind? && f !in s.finds {
          FindJustStarted(cfg, events);
          assert FindFrom(cfg, events, n, f);
        } else {
          var j: nat := FindIndexBefore(cfg, s, e, f);
          assert s.finds[j] in s.finds;
          var i: nat :| FindFrom(cfg, events[..n], i, s.finds[j]);
          FindLives(cfg, events, i, s.finds[j]);
        }
      }
    }
  }
}
