/** The option runs of offers: every offer entry of a tick leads to the options of its own service. */
module SdOptions {
  import opened Bytes
  import opened SdEntry
  import opened SdDiscovery
  import O = SdOption
  import M = SdMessage
  import R = SdRoundTrip

  /** The options that the first run of an entry selects. */
  ghost predicate Resolves(m: M.Message, e: Entry, options: seq<O.SdOption>) {
    e.index1 + e.count1 <= |m.options| && m.options[e.index1..e.index1 + e.count1] == options
  }

  /** The offers that a tick sends, in order. */
  function DueOffers(offers: seq<Offer>, now: int): seq<Offer> {
    if |offers| == 0 then []
    else
      var n := |offers| - 1;
      if Due(offers[n].timer, now) then DueOffers(offers[..n], now) + [offers[n]] else DueOffers(offers[..n], now)
  }

  function AllOptions(offers: seq<Offer>): seq<O.SdOption> {
    if |offers| == 0 then [] else AllOptions(offers[..|offers| - 1]) + offers[|offers| - 1].options
  }

  /** Where the options of offer j start in the message. */
  function RunStart(offers: seq<Offer>, j: nat): nat
    requires j <= |offers|
  {
    |AllOptions(offers[..j])|
  }

  lemma OneMoreOffer(offers: seq<Offer>, o: Offer)
    ensures AllOptions(offers + [o]) == AllOptions(offers) + o.options
    ensures forall j :: 0 <= j <= |offers| ==> RunStart(offers + [o], j) == RunStart(offers, j)
  {
    assert (offers + [o])[..|offers|] == offers;
    forall j | 0 <= j <= |offers|
      ensures RunStart(offers + [o], j) == RunStart(offers, j)
    {
      assert (offers + [o])[..j] == offers[..j];
    }
  }

  lemma {:induction false} TickSendsDueOffers(cfg: Config, offers: seq<Offer>, now: int)
    ensures
      var due := DueOffers(offers, now);
      && OfferOptions(offers, now) == AllOptions(due)
      && |OfferEntries(cfg, offers, now)| == |due|
      && (forall j :: 0 <= j < |due| ==> OfferEntries(cfg, offers, now)[j] == OfferEntry(cfg, due[j], RunStart(due, j)))
    decreases |offers|
  {
    hide Due, OfferEntry, AllOptions, RunStart;
    if |offers| == 0 {
      NoOptions();
    } else {
      var n := |offers| - 1;
      TickSendsDueOffers(cfg, offers[..n], now);
      var front := DueOffers(offers[..n], now);
      OneMoreOffer(front, offers[n]);
      WholeRun(front);
    }
  }

  lemma NoOptions()
    ensures AllOptions([]) == []
  {
  }

  lemma WholeRun(offers: seq<Offer>)
    ensures RunStart(offers, |offers|) == |AllOptions(offers)|
  {
    assert offers[..|offers|] == offers;
  }

  lemma {:induction false} RunIsThere(offers: seq<Offer>, j: nat)
    requires j < |offers|
    ensures
      var start, end := RunStart(offers, j), RunStart(offers, j) + |offers[j].options|;
      end <= |AllOptions(offers)| && AllOptions(offers)[start..end] == offers[j].options
    decreases |offers|
  {
    var n := |offers| - 1;
    if j == n {
    } else {
      RunIsThere(offers[..n], j);
      assert offers[..n][..j] == offers[..j];
      var start := RunStart(offers, j);
      Prefix(AllOptions(offers[..n]), offers[n].options, start, start + |offers[j].options|);
    }
  }

  lemma Prefix(a: seq<O.SdOption>, b: seq<O.SdOption>, i: nat, k: nat)
    requires i <= k <= |a|
    ensures (a + b)[i..k] == a[i..k]
  {
  }

  /** The run of an offer can be written: one byte for its start, one for its length. */
  predicate Addressable(offers: seq<Offer>, j: nat)
    requires j < |offers|
  {
    offers[j].options == [] || (RunStart(offers, j) <= 0xFF && |offers[j].options| <= 0xFF)
  }

  /**
   The withdrawals of a tick are followed by one entry for every due offer, in order; its option run
   selects exactly the options of that service.
   */
  lemma OptionsResolve(cfg: Config, s: State, now: int, j: nat)
    requires j < |DueOffers(s.offers, now)| && Addressable(DueOffers(s.offers, now), j)
    ensures
      var m, o := OfferMessage(cfg, s, now), DueOffers(s.offers, now)[j];
      && |m.entries| == |s.stops| + |DueOffers(s.offers, now)|
      && (forall i :: 0 <= i < |s.stops| ==> m.entries[i] == StopEntry(s.stops[i]))
      && var e := m.entries[|s.stops| + j];
      && e.kind == OFFER_SERVICE && Key(e.service, e.instance) == o.key && e.ttl == cfg.offerTtl
      && e.major == o.major && e.minor == o.minor && e.count2 == 0
      && Resolves(m, e, o.options)
  {
    hide DueOffers, AllOptions, OfferOptions, OfferEntries;
    var due := DueOffers(s.offers, now);
    TickSendsDueOffers(cfg, s.offers, now);
    RunIsThere(due, j);
    assert OfferMessage(cfg, s, now).entries[|s.stops| + j] == OfferEntries(cfg, s.offers, now)[j];
  }

  /** Every option occurs once. */
  ghost predicate NoRepeats(options: seq<O.SdOption>) {
    forall i, j :: 0 <= i < j < |options| ==> options[i] != options[j]
  }

  lemma RunsAgree(options: seq<O.SdOption>, a: nat, b: nat, n: nat)
    requires NoRepeats(options) && n > 0 && a + n <= |options| && b + n <= |options|
    requires options[a..a + n] == options[b..b + n]
    ensures a == b
  {
    assert options[a] == options[a..a + n][0] && options[b] == options[b..b + n][0];
  }

  /** A run of `count` options from `index` on is the one from `start` on only if it is exactly that one. */
  lemma RunIsExact(options: seq<O.SdOption>, start: nat, n: nat, index: nat, count: nat)
    requires NoRepeats(options) && n > 0 && start + n <= |options|
    ensures index + count <= |options| && options[index..index + count] == options[start..start + n]
       <==> index == start && count == n
  {
    if index + count <= |options| && options[index..index + count] == options[start..start + n] {
      assert |options[index..index + count]| == count;
      RunsAgree(options, index, start, n);
    }
  }

  /**
   If no option occurs twice in the message, the run of an offer selects its options exactly when it is
   addressable: both its start and its length are cut to a byte.
   */
  lemma OptionsResolveExactly(cfg: Config, s: State, now: int, j: nat)
    requires j < |DueOffers(s.offers, now)| && NoRepeats(AllOptions(DueOffers(s.offers, now)))
    ensures
      var m, due := OfferMessage(cfg, s, now), DueOffers(s.offers, now);
      && |m.entries| == |s.stops| + |due|
      && (Resolves(m, m.entries[|s.stops| + j], due[j].options) <==> Addressable(due, j))
  {
    hide DueOffers, AllOptions, OfferOptions, OfferEntries, NoRepeats, RunStart;
    var due, m := DueOffers(s.offers, now), OfferMessage(cfg, s, now);
    TickSendsDueOffers(cfg, s.offers, now);
    RunIsThere(due, j);
    var e, start, n := m.entries[|s.stops| + j], RunStart(due, j), |due[j].options|;
    assert e == OfferEntry(cfg, due[j], start);
    if n > 0 {
      RunIsExact(AllOptions(due), start, n, e.index1, e.count1);
    } else {
      assert m.options[0..0] == [];
    }
  }

  // -- A tick whose last offer misleads

  /** Options that differ in their ports. */
  function Numbered(k: nat): O.SdOption
    requires k < TWO16
  {
    O.Ipv4(O.IPV4_ENDPOINT, [10, 0, 0, 1], 0x11, k)
  }

  function NumberedOffer(i: nat): (o: Offer)
    requires i < 100
    ensures |o.options| == 15 && forall c: nat :: c < 15 ==> o.options[c] == Numbered(15 * i + c)
  {
    Offer(Key(i, 1), 1, 0, seq(15, c requires 0 <= c < 15 => Numbered(15 * i + c)), Timer(InitialWait, 0, 0))
  }

  /** n offers with 15 options each, all waiting to be sent for the first time. */
  function FifteenEach(n: nat): (offers: seq<Offer>)
    requires n <= 100
    ensures |offers| == n
  {
    if n == 0 then [] else FifteenEach(n - 1) + [NumberedOffer(n - 1)]
  }

  lemma {:induction false} FifteenEachDue(n: nat)
    requires n <= 100
    ensures DueOffers(FifteenEach(n), 0) == FifteenEach(n)
    decreases n
  {
    if n > 0 {
      FifteenEachDue(n - 1);
      assert FifteenEach(n)[..n - 1] == FifteenEach(n - 1);
    }
  }

  ghost predicate InNumbers(options: seq<O.SdOption>, n: nat) {
    |options| == n < TWO16 && forall k: nat :: k < n ==> options[k] == Numbered(k)
  }

  lemma MoreNumbers(options: seq<O.SdOption>, n: nat)
    requires n < 100 && InNumbers(options, 15 * n)
    ensures InNumbers(options + NumberedOffer(n).options, 15 * n + 15)
  {
    hide Numbered, NumberedOffer;
    var all := options + NumberedOffer(n).options;
    forall k: nat | k < 15 * n + 15
      ensures all[k] == Numbered(k)
    {
      if k >= 15 * n {
        assert all[k] == NumberedOffer(n).options[k - 15 * n];
      }
    }
  }

  lemma {:induction false} FifteenEachNumbered(n: nat)
    requires n <= 100
    ensures InNumbers(AllOptions(FifteenEach(n)), 15 * n)
    decreases n
  {
    hide InNumbers, NumberedOffer, AllOptions;
    if n == 0 {
      NoOptions();
      NoNumbers();
    } else {
      FifteenEachNumbered(n - 1);
      OneMoreOffer(FifteenEach(n - 1), NumberedOffer(n - 1));
      MoreNumbers(AllOptions(FifteenEach(n - 1)), n - 1);
    }
  }

  lemma NoNumbers()
    ensures InNumbers([], 0)
  {
  }

  lemma NumbersDiffer(options: seq<O.SdOption>, n: nat)
    requires InNumbers(options, n)
    ensures NoRepeats(options)
  {
  }

  lemma LastOfNineteen()
    ensures FifteenEach(19)[..18] == FifteenEach(18) && FifteenEach(19)[18] == NumberedOffer(18)
  {
  }

  /** Of 19 offers with 15 options each, the last one's run starts at 270, but its entry says 14. */
  lemma LastOfferMisleads(cfg: Config)
    ensures
      var s := State(FifteenEach(19), [], [], true);
      var m, offers := OfferMessage(cfg, s, 0), FifteenEach(19);
      && |m.entries| == 19 && |offers[18].options| == 15 && m.entries[18].index1 == 14
      && !Resolves(m, m.entries[18], offers[18].options)
  {
    hide Resolves, DueOffers, AllOptions, OfferEntries, OfferOptions, NoRepeats, FifteenEach;
    var offers, s := FifteenEach(19), State(FifteenEach(19), [], [], true);
    FifteenEachDue(19);
    FifteenEachNumbered(19);
    FifteenEachNumbered(18);
    LastOfNineteen();
    NumbersDiffer(AllOptions(offers), 285);
    assert RunStart(offers, 18) == 270;
    TickSendsDueOffers(cfg, offers, 0);
    OptionsResolveExactly(cfg, s, 0, 18);
    assert OfferMessage(cfg, s, 0).entries[18] == OfferEntry(cfg, offers[18], 270);
  }

  // ---- On the wire -------------------------------------------------------------------------------------

  /** On the wire the length of a run has 4 bits. */
  predicate Transmissible(offers: seq<Offer>, j: nat)
    requires j < |offers|
  {
    offers[j].options == [] || (RunStart(offers, j) <= 0xFF && |offers[j].options| <= 15)
  }

  ghost predicate KnownOptions(offers: seq<Offer>) {
    forall j :: 0 <= j < |offers| ==> R.StorableOptions(offers[j].options)
  }

  lemma {:induction false} AllOptionsStorable(offers: seq<Offer>)
    requires KnownOptions(offers)
    ensures R.StorableOptions(AllOptions(offers))
    decreases |offers|
  {
    if |offers| > 0 {
      AllOptionsStorable(offers[..|offers| - 1]);
    }
  }

  /** What a receiver makes of the entries of a tick: withdrawals as they are, counts of offers cut. */
  lemma ReceivedEntries(cfg: Config, s: State, now: int, tail: seq<byte>)
    requires KnownOptions(DueOffers(s.offers, now)) && M.SdSize(OfferMessage(cfg, s, now)) < TWO32
    ensures
      var m, due := OfferMessage(cfg, s, now), DueOffers(s.offers, now);
      var received := M.Deserialized(M.SdBytes(m) + tail);
      && received.Ok? && received.value.options == AllOptions(due)
      && |received.value.entries| == |s.stops| + |due|
      && (forall i :: 0 <= i < |s.stops| ==> received.value.entries[i] == StopEntry(s.stops[i]))
      && (forall j :: 0 <= j < |due| ==>
        received.value.entries[|s.stops| + j] == Cut(OfferEntry(cfg, due[j], RunStart(due, j))))
  {
    hide M.Deserialized, M.SdBytes, DueOffers, AllOptions, OfferOptions, OfferEntries, OfferEntry, RunStart, Cut;
    hide StopEntries, StopEntry, R.CutEntries, KnownOptions, R.StorableOptions;
    var m, due := OfferMessage(cfg, s, now), DueOffers(s.offers, now);
    TickSendsDueOffers(cfg, s.offers, now);
    AllOptionsStorable(due);
    R.PrintedParses(m, tail);
    TickCut(s.stops, OfferEntries(cfg, s.offers, now));
  }

  lemma TickCut(stops: seq<Offer>, entries: seq<Entry>)
    ensures
      var cut := R.CutEntries(StopEntries(stops) + entries);
      && (forall i :: 0 <= i < |stops| ==> cut[i] == StopEntry(stops[i]))
      && (forall j :: 0 <= j < |entries| ==> cut[|stops| + j] == Cut(entries[j]))
  {
    hide StopEntry, Cut;
    forall i | 0 <= i < |stops|
      ensures Cut(StopEntry(stops[i])) == StopEntry(stops[i])
    {
      StopEntryUncut(stops[i]);
    }
  }

  lemma StopEntryUncut(o: Offer)
    ensures Cut(StopEntry(o)) == StopEntry(o)
  {
  }

  lemma CutRun(cfg: Config, o: Offer, first: nat)
    ensures
      var e := Cut(OfferEntry(cfg, o, first));
      && e.kind == OFFER_SERVICE && Key(e.service, e.instance) == o.key && e.major == o.major && e.minor == o.minor
      && e.count1 == |o.options| % 16 && e.index1 == if o.options == [] then 0 else first % 0x100
  {
  }

  lemma RunFits(options: seq<O.SdOption>, start: nat, n: nat, index: nat, count: nat)
    requires start + n <= |options| && n > 0
    requires index == start % 0x100 && count == n % 16
    ensures index == start && count == n <==> start <= 0xFF && n <= 15
  {
  }

  /**
   The receiver of a tick's message sees the withdrawals first. The run of an offer then leads to the options
   it was made with if it starts within a byte and has at most 15 of them, and, if no option occurs twice in
   the message, only then.
   */
  lemma OptionsResolveOnTheWire(cfg: Config, s: State, now: int, j: nat, tail: seq<byte>)
    requires KnownOptions(DueOffers(s.offers, now)) && M.SdSize(OfferMessage(cfg, s, now)) < TWO32
    requires j < |DueOffers(s.offers, now)|
    ensures
      var due := DueOffers(s.offers, now);
      var received := M.Deserialized(M.SdBytes(OfferMessage(cfg, s, now)) + tail);
      && received.Ok? && |received.value.entries| == |s.stops| + |due|
      && (forall i :: 0 <= i < |s.stops| ==> received.value.entries[i] == StopEntry(s.stops[i]))
      && var e := received.value.entries[|s.stops| + j];
      && e.kind == OFFER_SERVICE && Key(e.service, e.instance) == due[j].key
      && (Transmissible(due, j) ==> Resolves(received.value, e, due[j].options))
      && (NoRepeats(AllOptions(due)) && Resolves(received.value, e, due[j].options) ==> Transmissible(due, j))
  {
    hide M.Deserialized, M.SdBytes, DueOffers, AllOptions, OfferMessage, OfferEntry, RunStart, Cut, NoRepeats;
    hide StopEntry, KnownOptions;
    ReceivedEntries(cfg, s, now, tail);
    var due := DueOffers(s.offers, now);
    var start, n := RunStart(due, j), |due[j].options|;
    var received := M.Deserialized(M.SdBytes(OfferMessage(cfg, s, now)) + tail).value;
    var e := received.entries[|s.stops| + j];
    CutRun(cfg, due[j], start);
    RunIsThere(due, j);
    if n == 0 {
      assert received.options[e.index1..e.index1 + e.count1] == [];
    } else {
      RunFits(received.options, start, n, e.index1, e.count1);
      if NoRepeats(AllOptions(due)) {
        RunIsExact(received.options, start, n, e.index1, e.count1);
      }
    }
  }
}
