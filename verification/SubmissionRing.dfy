/** The submission ring: the application queues entries while the kernel takes them out. */
module SubmissionRing {
  import opened Bytes
  import opened RingIndex

  /** An entry is its user data; the code clears a slot before it hands it out. */
  type Sqe = nat
  const CLEARED: Sqe := 0

  /** Where the application stands inside `get_sqe`: the kernel may run after it has loaded the head. */
  datatype Place = Outside | Loaded(head: u32)

  /** The shared head, tail and slots, and the application's own tail. */
  datatype Sq = Sq(head: u32, tail: u32, local: u32, array_: seq<u32>, entries: seq<Sqe>, place: Place)

  datatype Step =
    | LoadHead                    // application: get_sqe loads the head
    | Acquire                     // application: get_sqe goes on, with the head it has loaded
    | Fill(back: u32, e: Sqe)     // application: write an entry that is acquired but not yet published
    | Publish                     // application: submit stores the tail
    | Take                        // kernel: consume one published entry

  /** The slot that `get_sqe` returns, if any. */
  function Acquired(n: nat, s: Sq): (slot: nat)
    requires n > 0
    ensures slot <= n
  {
    if s.place.Loaded? && Minus(s.local, s.place.head) < n then s.local % n else n
  }

  function Unpublished(s: Sq): u32 {
    Minus(s.local, s.tail)
  }

  function FillSlot(n: nat, s: Sq, back: u32): nat
    requires n > 0
  {
    ((s.tail + back) % TWO32) % n
  }

  /** The slot of the entry that the kernel takes next, read through the index array. */
  function TakenSlot(n: nat, s: Sq): nat
    requires n > 0 && |s.array_| == n
  {
    s.array_[s.head % n]
  }

  predicate Shaped(n: nat, s: Sq) {
    n > 0 && |s.array_| == n && |s.entries| == n && forall i :: 0 <= i < n ==> s.array_[i] < n
  }

  function Next(n: nat, s: Sq, step: Step): (t: Sq)
    requires Shaped(n, s)
    ensures Shaped(n, t)
  {
    match step
    case LoadHead => s.(place := Loaded(s.head))
    case Acquire =>
      var idx := Acquired(n, s);
      if idx < n && idx < TWO32
      then Sq(s.head, s.tail, Successor(s.local), s.array_[idx := idx], s.entries[idx := CLEARED], Outside)
      else s.(place := Outside)
    case Fill(back, e) =>
      if back < Unpublished(s) then s.(entries := s.entries[FillSlot(n, s, back) := e]) else s
    case Publish => s.(tail := s.local)
    case Take => if s.head != s.tail then s.(head := Successor(s.head)) else s
  }

  // ---- What happened: unwrapped positions and all entries ever queued ------------------------------------

  /** `queue` holds every acquired entry at its position; `taken` what the kernel has read. */
  datatype History = History(head: nat, tail: nat, local: nat, loaded: nat, queue: seq<Sqe>, taken: seq<Sqe>)

  function Track(n: nat, s: Sq, h: History, step: Step): History
    requires Shaped(n, s)
  {
    match step
    case LoadHead => h.(loaded := h.head)
    case Acquire => if Acquired(n, s) < n then h.(local := h.local + 1, queue := h.queue + [CLEARED]) else h
    case Fill(back, e) =>
      if back < Unpublished(s) && h.tail + back < |h.queue| then h.(queue := h.queue[h.tail + back := e]) else h
    case Publish => h.(tail := h.local)
    case Take =>
      if s.head != s.tail then h.(head := h.head + 1, taken := h.taken + [s.entries[TakenSlot(n, s)]]) else h
  }

  ghost predicate Ordered(n: nat, h: History) {
    && h.head <= h.tail <= h.local <= h.head + n && h.loaded <= h.head && |h.queue| == h.local
    && h.taken == h.queue[..h.head]
  }

  ghost predicate Tracks(n: nat, s: Sq, h: History) {
    && s.head == Wrap(h.head) && s.tail == Wrap(h.tail) && s.local == Wrap(h.local)
    && (s.place.Loaded? ==> s.place.head == Wrap(h.loaded) && h.local <= h.loaded + n)
  }

  ghost predicate StoredAt(n: nat, s: Sq, queue: seq<Sqe>, k: nat)
    requires Shaped(n, s) && k < |queue|
  {
    s.array_[k % n] == k % n && s.entries[k % n] == queue[k]
  }

  /** Every position that is not consumed yet has its slot, and the slot holds its entry. */
  ghost predicate Stored(n: nat, s: Sq, h: History)
    requires Shaped(n, s)
  {
    h.local <= |h.queue| && forall k: nat :: h.head <= k < h.local ==> StoredAt(n, s, h.queue, k)
  }

  ghost predicate Inv(n: nat, s: Sq, h: History) {
    RingSize(n) && Shaped(n, s) && Ordered(n, h) && Tracks(n, s, h) && Stored(n, s, h)
  }

  lemma SizesSmall(n: nat)
    requires RingSize(n)
    ensures 0 < n < TWO32
  {
    var _ := SizeDivides(n);
  }

  // ---- Every step keeps the invariant ----------------------------------------------------------------------

  /** `get_sqe` refuses exactly when the ring was full at the head it loaded, and otherwise returns the next slot. */
  lemma AcquireAnswers(n: nat, s: Sq, h: History)
    requires Inv(n, s, h) && s.place.Loaded?
    ensures Acquired(n, s) == n <==> h.local == h.loaded + n
    ensures Acquired(n, s) < n ==> Acquired(n, s) == h.local % n
  {
    hide RingSize, Wrap, Minus;
    SizesSmall(n);
    WrappedDistance(h.local, h.loaded);
    SlotOfWrapped(h.local, n);
  }

  /** The slot that `get_sqe` hands out holds no entry that is still to be consumed. */
  lemma SlotIsFree(n: nat, s: Sq, h: History, k: nat)
    requires Inv(n, s, h) && Acquired(n, s) < n && h.head <= k < h.local
    ensures Acquired(n, s) != k % n
  {
    AcquireAnswers(n, s, h);
    SlotsDiffer(h.local, k, n);
  }

  lemma AcquiredSmall(n: nat, s: Sq)
    requires RingSize(n)
    ensures 0 < n < TWO32 && Acquired(n, s) < TWO32
    ensures s.place.Loaded? ==> Acquired(n, s) == if Minus(s.local, s.place.head) < n then s.local % n else n
  {
    SizesSmall(n);
  }

  /** What `submit` tells the kernel. */
  lemma PublishCounts(n: nat, s: Sq, h: History)
    requires Inv(n, s, h)
    ensures Shaped(n, s) && Minus(s.local, s.tail) == h.local - h.tail
  {
    hide RingSize, Wrap, Minus;
    SizesSmall(n);
    WrappedDistance(h.local, h.tail);
  }

  lemma AcquireKeeps(n: nat, s: Sq, h: History)
    requires Inv(n, s, h)
    ensures Inv(n, Next(n, s, Acquire), Track(n, s, h, Acquire))
  {
    hide RingSize, Wrap;
    SizesSmall(n);
    var t, g := Next(n, s, Acquire), Track(n, s, h, Acquire);
    if Acquired(n, s) == n {
      forall k: nat | h.head <= k < h.local
        ensures StoredAt(n, t, g.queue, k)
      {
        assert StoredAt(n, s, h.queue, k);
      }
    } else {
      AcquireAnswers(n, s, h);
      WrapStep(h.local);
      forall k: nat | h.head <= k < h.local
        ensures StoredAt(n, t, g.queue, k)
      {
        SlotIsFree(n, s, h, k);
        assert StoredAt(n, s, h.queue, k);
      }
      assert StoredAt(n, t, g.queue, h.local);
    }
  }

  /** An entry that is acquired but not yet published is filled in the slot of its position. */
  lemma FillsItsSlot(n: nat, s: Sq, h: History, back: u32)
    requires Inv(n, s, h)
    ensures back < Unpublished(s) <==> h.tail + back < h.local
    ensures FillSlot(n, s, back) == (h.tail + back) % n
  {
    hide RingSize, Wrap, Minus, Stored;
    SizesSmall(n);
    WrappedDistance(h.local, h.tail);
    WrapSum(h.tail, back);
    SlotOfWrapped(h.tail + back, n);
  }

  lemma FillKeeps(n: nat, s: Sq, h: History, back: u32, e: Sqe)
    requires Inv(n, s, h)
    ensures Inv(n, Next(n, s, Fill(back, e)), Track(n, s, h, Fill(back, e)))
  {
    hide RingSize, Wrap, Unpublished, FillSlot;
    SizesSmall(n);
    FillsItsSlot(n, s, h, back);
    if back < Unpublished(s) {
      var p := h.tail + back;
      var t, g := Next(n, s, Fill(back, e)), Track(n, s, h, Fill(back, e));
      forall k: nat | h.head <= k < h.local
        ensures StoredAt(n, t, g.queue, k)
      {
        assert StoredAt(n, s, h.queue, k);
        if k < p {
          SlotsDiffer(p, k, n);
        } else if k > p {
          SlotsDiffer(k, p, n);
        }
      }
    }
  }

  lemma WrapSum(p: nat, back: u32)
    ensures (Wrap(p) + back) % TWO32 == Wrap(p + back)
  {
  }

  /** The steps that leave the slots alone. */
  lemma StoredStill(n: nat, s: Sq, h: History, step: Step)
    requires Inv(n, s, h) && (step == LoadHead || step == Publish || step == Take)
    ensures Stored(n, Next(n, s, step), Track(n, s, h, step))
  {
    hide RingSize, Wrap, Shaped;
    var t, g := Next(n, s, step), Track(n, s, h, step);
    forall k: nat | g.head <= k < g.local
      ensures StoredAt(n, t, g.queue, k)
    {
      assert StoredAt(n, s, h.queue, k);
    }
  }

  lemma TakeKeeps(n: nat, s: Sq, h: History)
    requires Inv(n, s, h)
    ensures Inv(n, Next(n, s, Take), Track(n, s, h, Take))
  {
    hide RingSize, Wrap;
    SizesSmall(n);
    WrappedDistance(h.tail, h.head);
    if s.head != s.tail {
      SlotOfWrapped(h.head, n);
      WrapStep(h.head);
      assert StoredAt(n, s, h.queue, h.head);
      StoredStill(n, s, h, Take);
      assert h.queue[..h.head + 1] == h.queue[..h.head] + [h.queue[h.head]];
    }
  }

  lemma StepKeeps(n: nat, s: Sq, h: History, step: Step)
    requires Inv(n, s, h)
    ensures Inv(n, Next(n, s, step), Track(n, s, h, step))
  {
    hide RingSize, Wrap, Minus, Successor, Stored, Acquired, TakenSlot;
    match step
    case Acquire => AcquireKeeps(n, s, h);
    case Fill(back, e) => FillKeeps(n, s, h, back, e);
    case Take => TakeKeeps(n, s, h);
    case _ => StoredStill(n, s, h, step);
  }

  // ---- Runs ----------------------------------------------------------------------------------------------------

  /** The ring starts empty, its indices anywhere. */
  function Start(n: nat, at: nat): (s: Sq)
    ensures n > 0 ==> Shaped(n, s)
  {
    Sq(Wrap(at), Wrap(at), Wrap(at), seq(n, _ => 0), seq(n, _ => CLEARED), Outside)
  }

  function Begin(at: nat): History {
    History(at, at, at, at, seq(at, _ => CLEARED), seq(at, _ => CLEARED))
  }

  function Run(n: nat, s: Sq, h: History, steps: seq<Step>): (r: (Sq, History))
    requires Shaped(n, s)
    ensures Shaped(n, r.0)
  {
    if |steps| == 0 then (s, h)
    else
      var (t, g) := Run(n, s, h, steps[..|steps| - 1]);
      (Next(n, t, steps[|steps| - 1]), Track(n, t, g, steps[|steps| - 1]))
  }

  /**
   Whatever the interleaving of application and kernel, and however often the indices wrap: the
   unwrapped counters keep their order and distance, no unconsumed entry is overwritten, and the kernel
   has taken exactly the queued entries, each once, in order, as they were when it took them.
   */
  lemma {:induction false} RunKeeps(n: nat, s: Sq, h: History, steps: seq<Step>)
    requires Inv(n, s, h)
    ensures
      var (t, g) := Run(n, s, h, steps);
      Inv(n, t, g) && g.head <= g.tail <= g.local <= g.head + n && g.taken == g.queue[..g.head]
    decreases |steps|
  {
    hide Inv, Next, Track;
    InvMeans(n, s, h);
    if |steps| > 0 {
      RunKeeps(n, s, h, steps[..|steps| - 1]);
      var (t, g) := Run(n, s, h, steps[..|steps| - 1]);
      StepKeeps(n, t, g, steps[|steps| - 1]);
      InvMeans(n, Next(n, t, steps[|steps| - 1]), Track(n, t, g, steps[|steps| - 1]));
    }
  }

  lemma InvMeans(n: nat, s: Sq, h: History)
    requires Inv(n, s, h)
    ensures RingSize(n) && Shaped(n, s) && h.head <= h.tail <= h.local <= h.head + n && |h.queue| == h.local
    ensures h.taken == h.queue[..h.head]
  {
  }

  lemma FreshRunKeeps(n: nat, at: nat, steps: seq<Step>)
    requires RingSize(n)
    ensures n > 0
    ensures
      var (t, g) := Run(n, Start(n, at), Begin(at), steps);
      Inv(n, t, g) && g.head <= g.tail <= g.local <= g.head + n && g.taken == g.queue[..g.head]
  {
    SizesSmall(n);
    assert Begin(at).taken == Begin(at).queue[..at];
    RunKeeps(n, Start(n, at), Begin(at), steps);
  }

  // ---- What a short count leaves behind ------------------------------------------------------------------------

  /**
  What `submit` counts as new does not depend on what the kernel has taken: once everything is published,
  entries that the kernel has not taken yet are not submitted again until another one is acquired.
  */
  lemma PublishedOnly(n: nat, s: Sq, h: History)
    requires Inv(n, s, h)
    ensures Minus(s.local, s.tail) == 0 <==> h.local == h.tail
    ensures Minus(Next(n, s, Publish).local, Next(n, s, Publish).tail) == 0
    ensures Track(n, s, h, Publish).tail - Track(n, s, h, Publish).head == h.local - h.head
  {
    hide RingSize, Minus, Wrap, Stored;
    PublishCounts(n, s, h);
    MinusSelf(s.local);
  }

  lemma MinusSelf(a: u32)
    ensures Minus(a, a) == 0
  {
  }

  /** For instance: one entry, published but not taken, and a further `submit` has nothing new to submit. */
  lemma EntryIsStranded(n: nat, at: nat)
    requires RingSize(n)
    ensures n > 0
    ensures
      var (s, h) := Run(n, Start(n, at), Begin(at), [LoadHead, Acquire, Publish]);
      h.head == at && h.tail == at + 1 && s.head != s.tail && Minus(s.local, s.tail) == 0
  {
    SizesSmall(n);
    hide Inv, RingSize, Start, Wrap, Minus;
    var s0, h0 := Start(n, at), Begin(at);
    var s1, h1 := Next(n, s0, LoadHead), Track(n, s0, h0, LoadHead);
    var s2, h2 := Next(n, s1, Acquire), Track(n, s1, h1, Acquire);
    FreshRunKeeps(n, at, []);
    StepKeeps(n, s0, h0, LoadHead);
    StepKeeps(n, s1, h1, Acquire);
    AcquireAnswers(n, s1, h1);
    RunOfThree(n, s0, h0, LoadHead, Acquire, Publish);
    PublishedOnly(n, s2, h2);
    StepKeeps(n, s2, h2, Publish);
    HeadsDiffer(n, Next(n, s2, Publish), Track(n, s2, h2, Publish));
  }

  lemma HeadsDiffer(n: nat, s: Sq, h: History)
    requires Inv(n, s, h)
    ensures s.head == s.tail <==> h.head == h.tail
  {
    hide RingSize, Wrap;
    SizesSmall(n);
    WrappedDistance(h.tail, h.head);
  }

  lemma OneMoreStep(n: nat, s: Sq, h: History, steps: seq<Step>, step: Step)
    requires Shaped(n, s)
    ensures
      var (t, g) := Run(n, s, h, steps);
      Run(n, s, h, steps + [step]) == (Next(n, t, step), Track(n, t, g, step))
  {
    hide Next, Track;
    assert (steps + [step])[..|steps|] == steps;
  }

  lemma NoSteps(n: nat, s: Sq, h: History)
    requires Shaped(n, s)
    ensures Run(n, s, h, []) == (s, h)
  {
  }

  lemma RunOfThree(n: nat, s: Sq, h: History, a: Step, b: Step, c: Step)
    requires Shaped(n, s)
    ensures
      var s1, h1 := Next(n, s, a), Track(n, s, h, a);
      var s2, h2 := Next(n, s1, b), Track(n, s1, h1, b);
      Run(n, s, h, [a, b, c]) == (Next(n, s2, c), Track(n, s2, h2, c))
  {
    hide Next, Track, Run;
    NoSteps(n, s, h);
    OneMoreStep(n, s, h, [], a);
    OneMoreStep(n, s, h, [a], b);
    OneMoreStep(n, s, h, [a, b], c);
    assert [] + [a] == [a] && [a] + [b] == [a, b] && [a, b] + [c] == [a, b, c];
  }
}
