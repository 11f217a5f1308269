/** When offers and finds are sent: the repetition phase backs off exponentially, finds then stop for good. */
module SdBackoff {
  import opened Bytes
  import opened SdDiscovery

  datatype Role = ForOffer | ForFind

  function Advance(cfg: Config, role: Role, t: Timer, now: int): Timer {
    if role == ForOffer then AdvanceOffer(cfg, t, now) else AdvanceFind(cfg, t, now)
  }

  /** The times at which a timer sends during a run of ticks, and the timer afterwards. */
  function Sends(cfg: Config, role: Role, t: Timer, ticks: seq<int>): (seq<int>, Timer) {
    if |ticks| == 0 then ([], t)
    else
      var n := |ticks| - 1;
      var (sent, u) := Sends(cfg, role, t, ticks[..n]);
      if Due(u, ticks[n]) then (sent + [ticks[n]], Advance(cfg, role, u, ticks[n])) else (sent, u)
  }

  // ---- The tick loops run every timer on its own -------------------------------------------------------

  function AfterTicks(cfg: Config, s: State, ticks: seq<int>): State {
    if |ticks| == 0 then s
    else Ticked(cfg, AfterTicks(cfg, s, ticks[..|ticks| - 1]), ticks[|ticks| - 1])
  }

  /** However many offers and finds there are, each of them is sent at the times of its own timer. */
  lemma {:induction false} TimersAreIndependent(cfg: Config, s: State, ticks: seq<int>)
    ensures
      var t := AfterTicks(cfg, s, ticks);
      && |t.offers| == |s.offers| && |t.finds| == |s.finds|
      && (forall i :: 0 <= i < |s.offers| ==>
        t.offers[i] == s.offers[i].(timer := Sends(cfg, ForOffer, s.offers[i].timer, ticks).1))
      && (forall i :: 0 <= i < |s.finds| ==>
        t.finds[i] == s.finds[i].(timer := Sends(cfg, ForFind, s.finds[i].timer, ticks).1))
    decreases |ticks|
  {
    hide Due, AdvanceOffer, AdvanceFind;
    if |ticks| > 0 {
      TimersAreIndependent(cfg, s, ticks[..|ticks| - 1]);
    }
  }

  // ---- The timer is a function of the sends so far -------------------------------------------------------

  /** The number of sends up to the end of the repetition phase. */
  function Limit(cfg: Config): nat {
    if cfg.repetitionMax < 2 then 2 else cfg.repetitionMax
  }

  /** The least time from send k to the next one. */
  function Gap(cfg: Config, k: nat): int
    requires k >= 1
  {
    if k < Limit(cfg) then cfg.repetitionBaseDelay * Pow2(k - 1) else cfg.cyclicOfferDelay
  }

  ghost predicate Follows(cfg: Config, role: Role, start: int, sent: seq<int>, t: Timer) {
    var n := |sent|;
    if n == 0 then t == Timer(InitialWait, start, 0)
    else if n < Limit(cfg) then t == Timer(Repetition, sent[n - 1] + Gap(cfg, n), n)
    else if role == ForOffer then t == Timer(Main, sent[n - 1] + Gap(cfg, n), Limit(cfg))
    else n == Limit(cfg) && t.phase == Down && t.count == n
  }

  lemma OneTick(cfg: Config, role: Role, start: int, sent: seq<int>, t: Timer, now: int)
    requires Follows(cfg, role, start, sent, t)
    ensures Due(t, now) ==> Follows(cfg, role, start, sent + [now], Advance(cfg, role, t, now))
    ensures Due(t, now) ==> now >= if sent == [] then start else sent[|sent| - 1] + Gap(cfg, |sent|)
  {
  }

  ghost predicate Spaced(cfg: Config, start: int, sent: seq<int>) {
    && (sent != [] ==> sent[0] >= start)
    && (forall k :: 1 <= k < |sent| ==> sent[k] >= sent[k - 1] + Gap(cfg, k))
  }

  /** After any run of ticks the timer is what its sends determine, and the sends keep their gaps. */
  lemma {:induction false} TimerFollowsSends(cfg: Config, role: Role, now: int, ticks: seq<int>)
    ensures
      var (sent, t) := Sends(cfg, role, Started(cfg, now), ticks);
      Follows(cfg, role, now + cfg.initialDelayMin, sent, t) && Spaced(cfg, now + cfg.initialDelayMin, sent)
    decreases |ticks|
  {
    hide Due, Follows, Gap, Advance;
    if |ticks| == 0 {
      NoSends(cfg, role, now);
    } else {
      var n := |ticks| - 1;
      var (sent, t) := Sends(cfg, role, Started(cfg, now), ticks[..n]);
      TimerFollowsSends(cfg, role, now, ticks[..n]);
      OneTick(cfg, role, now + cfg.initialDelayMin, sent, t, ticks[n]);
    }
  }

  lemma NoSends(cfg: Config, role: Role, now: int)
    ensures Follows(cfg, role, now + cfg.initialDelayMin, [], Started(cfg, now))
  {
  }

  // ---- What follows for whole runs ------------------------------------------------------------------------

  /** A find is sent at most max(2, repetition_max) times, and has been sent that often exactly when it is down. */
  lemma FindIsBounded(cfg: Config, now: int, ticks: seq<int>)
    ensures
      var (sent, t) := Sends(cfg, ForFind, Started(cfg, now), ticks);
      |sent| <= Limit(cfg) && (|sent| == Limit(cfg) <==> t.phase == Down)
  {
    TimerFollowsSends(cfg, ForFind, now, ticks);
  }

  /** A find that is down is never sent again. */
  lemma {:induction false} DownIsFinal(cfg: Config, t: Timer, ticks: seq<int>)
    requires t.phase == Down
    ensures Sends(cfg, ForFind, t, ticks) == ([], t)
    decreases |ticks|
  {
    if |ticks| > 0 {
      DownIsFinal(cfg, t, ticks[..|ticks| - 1]);
    }
  }

  /** The main phase of an offer is absorbing. */
  lemma {:induction false} MainIsAbsorbing(cfg: Config, t: Timer, ticks: seq<int>)
    requires t.phase == Main
    ensures
      var (sent, u) := Sends(cfg, ForOffer, t, ticks);
      && u.phase == Main && u.nextSend == (if sent == [] then t.nextSend else sent[|sent| - 1] + cfg.cyclicOfferDelay)
      && (forall k :: 1 <= k < |sent| ==> sent[k] >= sent[k - 1] + cfg.cyclicOfferDelay)
    decreases |ticks|
  {
    if |ticks| > 0 {
      MainIsAbsorbing(cfg, t, ticks[..|ticks| - 1]);
    }
  }

  /** The ticks that do not come too early: when the time to send next, if any, has come. */
  function Timely(cfg: Config, role: Role, t: Timer, ticks: seq<int>): nat {
    if |ticks| == 0 then 0
    else
      var n := |ticks| - 1;
      Timely(cfg, role, t, ticks[..n]) + if ticks[n] >= Sends(cfg, role, t, ticks[..n]).1.nextSend then 1 else 0
  }

  /**
   Over every run of ticks a find is sent once for every timely tick, up to max(2, repetition_max) times:
   given that many timely ticks it is sent exactly that often, and ticks that come too early cost nothing.
   */
  lemma {:induction false} FindIsSentOut(cfg: Config, now: int, ticks: seq<int>)
    ensures
      var due := Timely(cfg, ForFind, Started(cfg, now), ticks);
      |Sends(cfg, ForFind, Started(cfg, now), ticks).0| == if due < Limit(cfg) then due else Limit(cfg)
    decreases |ticks|
  {
    hide Limit, AdvanceFind;
    if |ticks| == 0 {
      LimitPositive(cfg);
    } else {
      var n := |ticks| - 1;
      FindIsSentOut(cfg, now, ticks[..n]);
      FindIsBounded(cfg, now, ticks[..n]);
    }
  }

  lemma LimitPositive(cfg: Config)
    ensures Limit(cfg) > 0
  {
  }

  lemma Doubles(base: int, k: nat)
    requires k >= 1
    ensures base * (Pow2(k - 1) - 1) + base * Pow2(k - 1) == base * (Pow2(k) - 1)
  {
    assert base * (Pow2(k - 1) - 1) == base * Pow2(k - 1) - base;
    assert base * (Pow2(k) - 1) == base * Pow2(k) - base;
    assert base * Pow2(k) == base * Pow2(k - 1) + base * Pow2(k - 1);
  }

  lemma {:induction false} GapsAddUp(cfg: Config, start: int, sent: seq<int>, k: nat)
    requires Spaced(cfg, start, sent) && k < |sent| && k < Limit(cfg)
    ensures sent[k] >= sent[0] + cfg.repetitionBaseDelay * (Pow2(k) - 1)
    decreases k
  {
    if k > 0 {
      GapsAddUp(cfg, start, sent, k - 1);
      Doubles(cfg.repetitionBaseDelay, k);
    }
  }

  /**
   Send k + 1 of an offer or a find comes at least base * (2^k - 1) after the first one as long as the
   repetition phase lasts, and at least the cyclic delay after the one before it from then on.
   */
  lemma BackoffIsExponential(cfg: Config, role: Role, now: int, ticks: seq<int>)
    ensures
      var sent := Sends(cfg, role, Started(cfg, now), ticks).0;
      && (forall k :: 0 <= k < |sent| && k < Limit(cfg) ==>
        sent[k] >= sent[0] + cfg.repetitionBaseDelay * (Pow2(k) - 1))
      && (forall k :: Limit(cfg) <= k < |sent| ==> sent[k] >= sent[k - 1] + cfg.cyclicOfferDelay)
  {
    hide Sends, Pow2, Follows;
    var sent := Sends(cfg, role, Started(cfg, now), ticks).0;
    TimerFollowsSends(cfg, role, now, ticks);
    forall k: nat | k < |sent| && k < Limit(cfg)
      ensures sent[k] >= sent[0] + cfg.repetitionBaseDelay * (Pow2(k) - 1)
    {
      GapsAddUp(cfg, now + cfg.initialDelayMin, sent, k);
    }
  }
}
