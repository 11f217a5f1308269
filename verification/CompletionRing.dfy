/** The completion ring: the kernel posts completions while the application reaps them. */
module CompletionRing {
  import opened Bytes
  import opened RingIndex

  /** A completion is its user data. */
  type Cqe = nat

  /**
   Where the application stands: in `for_each_cqe`, with the tail it has loaded, or between
   `peek_cqe` and `seen_cqe`. The kernel may run at every one of these places.
   */
  datatype Place = Outside | Reaping(at: u32, end: u32) | Peeked

  datatype Cq = Cq(head: u32, tail: u32, entries: seq<Cqe>, place: Place)

  datatype Step =
    | BeginReap     // application: for_each_cqe loads head and tail
    | Deliver       // application: the callback sees one completion
    | EndReap       // application: for_each_cqe stores the head
    | Peek          // application: peek_cqe returns a completion
    | Seen          // application: seen_cqe stores the next head
    | Post(c: Cqe)  // kernel: post a completion if there is room

  /** The completions that the application sees in this step. */
  function SeenBy(n: nat, s: Cq, step: Step): seq<Cqe>
    requires n > 0 && |s.entries| == n
  {
    match step
    case Deliver => if s.place.Reaping? && s.place.at != s.place.end then [s.entries[s.place.at % n]] else []
    case Seen => if s.place.Peeked? then [s.entries[s.head % n]] else []
    case _ => []
  }

  function Next(n: nat, s: Cq, step: Step): (t: Cq)
    requires n > 0 && |s.entries| == n
    ensures |t.entries| == n
  {
    match step
    case BeginReap => if s.place.Outside? then s.(place := Reaping(s.head, s.tail)) else s
    case Deliver =>
      if s.place.Reaping? && s.place.at != s.place.end
      then s.(place := Reaping(Successor(s.place.at), s.place.end)) else s
    case EndReap =>
      if s.place.Reaping? && s.place.at == s.place.end then s.(head := s.place.at, place := Outside) else s
    case Peek => if s.place.Outside? && s.head != s.tail then s.(place := Peeked) else s
    case Seen => if s.place.Peeked? then s.(head := Successor(s.head), place := Outside) else s
    case Post(c) =>
      if Minus(s.tail, s.head) < n
      then s.(entries := s.entries[s.tail % n := c], tail := Successor(s.tail)) else s
  }

  // ---- What happened: unwrapped positions, all completions ever posted and ever seen ------------------------

  datatype History = History(head: nat, at: nat, end: nat, posted: seq<Cqe>, seen: seq<Cqe>)

  function Track(n: nat, s: Cq, h: History, step: Step): History
    requires n > 0 && |s.entries| == n
  {
    var g := h.(seen := h.seen + SeenBy(n, s, step));
    match step
    case BeginReap => if s.place.Outside? then g.(at := h.head, end := |h.posted|) else g
    case Deliver => if s.place.Reaping? && s.place.at != s.place.end then g.(at := h.at + 1) else g
    case EndReap => if s.place.Reaping? && s.place.at == s.place.end then g.(head := h.at) else g
    case Peek => g
    case Seen => if s.place.Peeked? then g.(head := h.head + 1) else g
    case Post(c) => if Minus(s.tail, s.head) < n then g.(posted := h.posted + [c]) else g
  }

  /** How many completions have been seen. */
  function SeenUpTo(s: Cq, h: History): nat {
    if s.place.Reaping? then h.at else h.head
  }

  ghost predicate Ordered(n: nat, s: Cq, h: History) {
    && h.head <= |h.posted| <= h.head + n
    && (s.place.Reaping? ==> h.head <= h.at <= h.end <= |h.posted|)
    && (s.place.Peeked? ==> h.head < |h.posted|)
  }

  ghost predicate Tracks(s: Cq, h: History) {
    && s.head == Wrap(h.head) && s.tail == Wrap(|h.posted|)
    && (s.place.Reaping? ==> s.place.at == Wrap(h.at) && s.place.end == Wrap(h.end))
  }

  ghost predicate StoredAt(n: nat, s: Cq, posted: seq<Cqe>, k: nat)
    requires n > 0 && |s.entries| == n && k < |posted|
  {
    s.entries[k % n] == posted[k]
  }

  /** A completion stays in its slot until the application has stored a head behind it. */
  ghost predicate Stored(n: nat, s: Cq, h: History)
    requires n > 0 && |s.entries| == n
  {
    forall k: nat :: h.head <= k < |h.posted| ==> StoredAt(n, s, h.posted, k)
  }

  /** Exactly the completions posted so far, up to where the application stands, each once and in order. */
  ghost predicate SeenInOrder(s: Cq, h: History) {
    SeenUpTo(s, h) <= |h.posted| && h.seen == h.posted[..SeenUpTo(s, h)]
  }

  ghost predicate Inv(n: nat, s: Cq, h: History) {
    && RingSize(n) && n > 0 && |s.entries| == n
    && Ordered(n, s, h) && Tracks(s, h) && Stored(n, s, h) && SeenInOrder(s, h)
  }

  // ---- Every step keeps the invariant --------------------------------------------------------------------

  lemma SizesSmall(n: nat)
    requires RingSize(n)
    ensures 0 < n < TWO32
  {
    var _ := SizeDivides(n);
  }

  /** The kernel's post goes to a slot that holds nothing unseen, even in the middle of a reap. */
  lemma PostIsFree(n: nat, s: Cq, h: History, k: nat)
    requires Inv(n, s, h) && Minus(s.tail, s.head) < n && h.head <= k < |h.posted|
    ensures s.tail as int % n == |h.posted| % n && s.tail as int % n != k % n
  {
    hide RingSize, Wrap, Minus;
    SizesSmall(n);
    WrappedDistance(|h.posted|, h.head);
    SlotOfWrapped(|h.posted|, n);
    SlotsDiffer(|h.posted|, k, n);
  }

  lemma PostKeeps(n: nat, s: Cq, h: History, c: Cqe)
    requires Inv(n, s, h)
    ensures Inv(n, Next(n, s, Post(c)), Track(n, s, h, Post(c)))
  {
    hide RingSize, Wrap, Minus;
    SizesSmall(n);
    var t, g := Next(n, s, Post(c)), Track(n, s, h, Post(c));
    WrappedDistance(|h.posted|, h.head);
    if Minus(s.tail, s.head) < n {
      SlotOfWrapped(|h.posted|, n);
      WrapStep(|h.posted|);
      forall k: nat | h.head <= k < |h.posted|
        ensures StoredAt(n, t, g.posted, k)
      {
        assert StoredAt(n, s, h.posted, k);
        PostIsFree(n, s, h, k);
      }
      assert StoredAt(n, t, g.posted, |h.posted|);
      assert g.posted[..SeenUpTo(s, h)] == h.posted[..SeenUpTo(s, h)];
    }
  }

  lemma StoredStill(n: nat, s: Cq, h: History, step: Step)
    requires Inv(n, s, h) && !step.Post?
    requires Track(n, s, h, step).head >= h.head
    ensures Stored(n, Next(n, s, step), Track(n, s, h, step))
  {
    hide RingSize, Wrap;
    var t, g := Next(n, s, step), Track(n, s, h, step);
    forall k: nat | g.head <= k < |g.posted|
      ensures StoredAt(n, t, g.posted, k)
    {
      assert StoredAt(n, s, h.posted, k);
    }
  }

  /** What the application sees is the next posted completion. */
  lemma SeesNext(n: nat, s: Cq, h: History, step: Step)
    requires Inv(n, s, h) && SeenBy(n, s, step) != []
    ensures SeenUpTo(s, h) < |h.posted| && SeenBy(n, s, step) == [h.posted[SeenUpTo(s, h)]]
    ensures s.place.Reaping? ==> h.at < h.end
  {
    hide RingSize, Wrap;
    SizesSmall(n);
    if s.place.Reaping? {
      WrappedDistance(h.end, h.at);
    }
    SlotOfWrapped(SeenUpTo(s, h), n);
    assert StoredAt(n, s, h.posted, SeenUpTo(s, h));
  }

  lemma ReapIsDone(n: nat, s: Cq, h: History)
    requires Inv(n, s, h) && s.place.Reaping?
    ensures h.at <= h.end && (s.place.at == s.place.end <==> h.at == h.end)
  {
    hide RingSize, Wrap;
    SizesSmall(n);
    WrappedDistance(h.end, h.at);
  }

  lemma PeekAnswers(n: nat, s: Cq, h: History)
    requires Inv(n, s, h)
    ensures n > 0 && |s.entries| == n
    ensures s.head == s.tail <==> h.head == |h.posted|
    ensures s.head != s.tail ==> h.head < |h.posted| && s.entries[s.head % n] == h.posted[h.head]
  {
    hide RingSize, Wrap;
    SizesSmall(n);
    WrappedDistance(|h.posted|, h.head);
    SlotOfWrapped(h.head, n);
    if h.head < |h.posted| {
      assert StoredAt(n, s, h.posted, h.head);
    }
  }

  lemma SeenKeeps(n: nat, s: Cq, h: History, step: Step)
    requires Inv(n, s, h) && !step.Post?
    ensures SeenInOrder(Next(n, s, step), Track(n, s, h, step))
  {
    hide RingSize, Wrap, Successor, Stored;
    SizesSmall(n);
    if SeenBy(n, s, step) == [] {
      assert h.seen + [] == h.seen;
      if s.place.Reaping? {
        WrappedDistance(h.end, h.at);
      }
    } else {
      SeesNext(n, s, h, step);
      assert h.posted[..SeenUpTo(s, h) + 1] == h.posted[..SeenUpTo(s, h)] + [h.posted[SeenUpTo(s, h)]];
    }
  }

  lemma ReapKeeps(n: nat, s: Cq, h: History, step: Step)
    requires Inv(n, s, h) && !step.Post?
    ensures Inv(n, Next(n, s, step), Track(n, s, h, step))
  {
    hide RingSize, Wrap, Successor, Stored, SeenInOrder, SeenBy;
    SizesSmall(n);
    WrappedDistance(|h.posted|, h.head);
    WrapStep(h.head);
    if s.place.Reaping? {
      WrappedDistance(h.end, h.at);
      WrapStep(h.at);
    }
    SeenKeeps(n, s, h, step);
    StoredStill(n, s, h, step);
  }

  lemma StepKeeps(n: nat, s: Cq, h: History, step: Step)
    requires Inv(n, s, h)
    ensures Inv(n, Next(n, s, step), Track(n, s, h, step))
  {
    hide Inv, Next, Track;
    if step.Post? {
      PostKeeps(n, s, h, step.c);
    } else {
      ReapKeeps(n, s, h, step);
    }
  }

  // ---- Runs ---------------------------------------------------------------------------------------------------

  function Start(n: nat, at: nat): (s: Cq)
    ensures |s.entries| == n
  {
    Cq(Wrap(at), Wrap(at), seq(n, _ => 0), Outside)
  }

  function Begin(at: nat): History {
    History(at, at, at, seq(at, _ => 0), seq(at, _ => 0))
  }

  function Run(n: nat, s: Cq, h: History, steps: seq<Step>): (r: (Cq, History))
    requires n > 0 && |s.entries| == n
    ensures |r.0.entries| == n
  {
    if |steps| == 0 then (s, h)
    else
      var (t, g) := Run(n, s, h, steps[..|steps| - 1]);
      (Next(n, t, steps[|steps| - 1]), Track(n, t, g, steps[|steps| - 1]))
  }

  lemma InvMeans(n: nat, s: Cq, h: History)
    requires Inv(n, s, h)
    ensures n > 0 && |s.entries| == n && h.head <= |h.posted| <= h.head + n && SeenInOrder(s, h)
  {
  }

  /**
   Whatever the interleaving of kernel and application, and however often the indices wrap: the
   application has seen exactly the completions posted so far, up to where it stands, each once, in order.
   */
  lemma {:induction false} RunKeeps(n: nat, s: Cq, h: History, steps: seq<Step>)
    requires Inv(n, s, h)
    ensures n > 0 && |s.entries| == n
    ensures
      var (t, g) := Run(n, s, h, steps);
      Inv(n, t, g) && g.head <= |g.posted| <= g.head + n && SeenInOrder(t, g)
    decreases |steps|
  {
    hide Inv, Next, Track, SeenInOrder;
    InvMeans(n, s, h);
    if |steps| > 0 {
      RunKeeps(n, s, h, steps[..|steps| - 1]);
      var (t, g) := Run(n, s, h, steps[..|steps| - 1]);
      StepKeeps(n, t, g, steps[|steps| - 1]);
      InvMeans(n, Next(n, t, steps[|steps| - 1]), Track(n, t, g, steps[|steps| - 1]));
    }
  }

  lemma FreshRunKeeps(n: nat, at: nat, steps: seq<Step>)
    requires RingSize(n)
    ensures n > 0
    ensures
      var (t, g) := Run(n, Start(n, at), Begin(at), steps);
      Inv(n, t, g) && g.head <= |g.posted| <= g.head + n && SeenInOrder(t, g)
  {
    SizesSmall(n);
    assert Begin(at).seen == Begin(at).posted[..at];
    RunKeeps(n, Start(n, at), Begin(at), steps);
  }
}
