/**
The index protocol of the io_uring context, against a kernel that runs between any two accesses to the
shared indices. The kernel's own steps are methods here; a method's extra parameters say what the
kernel does while it runs.
*/
module Uring {
  import opened Bytes
  import opened Wrappers
  import opened RingIndex
  import S = SubmissionRing
  import C = CompletionRing

  class UringContext {
    const sqEntries: nat
    const cqEntries: nat

    var sqHead: u32
    var sqTail: u32
    var sqTailLocal: u32
    const sqArray: array<u32>
    const sqes: array<S.Sqe>

    var cqHead: u32
    var cqTail: u32
    const cqes: array<C.Cqe>

    ghost var submissions: S.History
    ghost var completions: C.History
    ghost var sqPlace: S.Place
    ghost var cqPlace: C.Place

    ghost predicate Sized() {
      && sqEntries > 0 && sqArray.Length == sqEntries && sqes.Length == sqEntries
      && cqEntries > 0 && cqes.Length == cqEntries && sqes != cqes
    }

    ghost function Submission(): S.Sq
      reads `sqHead, `sqTail, `sqTailLocal, `sqPlace, sqArray, sqes
    {
      S.Sq(sqHead, sqTail, sqTailLocal, sqArray[..], sqes[..], sqPlace)
    }

    ghost function Completion(): C.Cq
      reads `cqHead, `cqTail, `cqPlace, cqes
    {
      C.Cq(cqHead, cqTail, cqes[..], cqPlace)
    }

    ghost predicate SqValid()
      reads `sqHead, `sqTail, `sqTailLocal, `sqPlace, `submissions, sqArray, sqes
    {
      Sized() && S.Inv(sqEntries, Submission(), submissions)
    }

    ghost predicate CqValid()
      reads `cqHead, `cqTail, `cqPlace, `completions, cqes
    {
      Sized() && C.Inv(cqEntries, Completion(), completions)
    }

    /** The rings start empty; the kernel has chosen their sizes. */
    constructor (sqEntries: nat, cqEntries: nat)
      requires RingSize(sqEntries) && RingSize(cqEntries)
      ensures SqValid() && sqPlace == S.Outside && submissions.queue == []
      ensures CqValid() && cqPlace == C.Outside && completions.posted == []
    {
      S.SizesSmall(sqEntries);
      C.SizesSmall(cqEntries);
      this.sqEntries, this.cqEntries := sqEntries, cqEntries;
      sqHead, sqTail, sqTailLocal, cqHead, cqTail := 0, 0, 0, 0, 0;
      sqArray := new u32[sqEntries](_ => 0);
      sqes := new S.Sqe[sqEntries](_ => 0);
      cqes := new C.Cqe[cqEntries](_ => 0);
      submissions, sqPlace := S.Begin(0), S.Outside;
      completions, cqPlace := C.Begin(0), C.Outside;
      new;
      S.FreshRunKeeps(sqEntries, 0, []);
      assert Submission() == S.Start(sqEntries, 0);
      C.FreshRunKeeps(cqEntries, 0, []);
      assert Completion() == C.Start(cqEntries, 0);
    }

    // ---- The kernel ---------------------------------------------------------------------------------

    /** Takes up to `count` published entries; each is read through the index array. */
    method KernelTake(count: nat)
      requires SqValid()
      modifies `sqHead, `submissions
      ensures SqValid() && submissions.queue == old(submissions.queue)
      ensures submissions == old(submissions).(head := submissions.head, taken := submissions.taken)
      ensures old(submissions.head) <= submissions.head
    {
      hide S.Inv;
      for i := 0 to count
        invariant SqValid() && old(submissions.head) <= submissions.head
        invariant submissions == old(submissions).(head := submissions.head, taken := submissions.taken)
      {
        ghost var s := Submission();
        S.InvMeans(sqEntries, s, submissions);
        S.StepKeeps(sqEntries, s, submissions, S.Take);
        submissions := S.Track(sqEntries, s, submissions, S.Take);
        if sqHead != sqTail {
          sqHead := Successor(sqHead);
        }
        assert Submission() == S.Next(sqEntries, s, S.Take);
      }
    }

    /** Posts completions for as long as there is room. */
    method KernelPost(posts: seq<C.Cqe>)
      requires CqValid()
      modifies `cqTail, `completions, cqes
      ensures CqValid()
      ensures completions == old(completions).(posted := completions.posted)
      ensures old(completions.posted) <= completions.posted
    {
      hide C.Inv;
      for i := 0 to |posts|
        invariant CqValid()
        invariant completions == old(completions).(posted := completions.posted)
        invariant old(completions.posted) <= completions.posted
      {
        ghost var s, h := Completion(), completions;
        C.StepKeeps(cqEntries, s, h, C.Post(posts[i]));
        completions := C.Track(cqEntries, s, h, C.Post(posts[i]));
        assert h.seen + [] == h.seen;
        if Minus(cqTail, cqHead) < cqEntries {
          cqes[cqTail % cqEntries] := posts[i];
          cqTail := Successor(cqTail);
        }
        assert Completion() == C.Next(cqEntries, s, C.Post(posts[i]));
      }
    }

    // ---- Submission -----------------------------------------------------------------------------------

    /**
    The next free entry, cleared, or None if the queue was full; the kernel may take entries after the
    head was read.
    */
    method GetSqe(takes: nat) returns (slot: Option<nat>)
      requires SqValid() && sqPlace == S.Outside
      modifies `sqHead, `sqTailLocal, `submissions, `sqPlace, sqArray, sqes
      ensures SqValid() && sqPlace == S.Outside
      ensures slot.None? <==> old(submissions.local == submissions.head + sqEntries)
      ensures slot.None? ==> submissions.queue == old(submissions.queue)
      ensures slot.Some? ==>
        && slot.value < sqEntries && sqes[slot.value] == 0
        && submissions.queue == old(submissions.queue) + [0]
        && forall k: nat :: submissions.head <= k < old(submissions.local) ==> k % sqEntries != slot.value
      ensures submissions.tail == old(submissions.tail)
    {
      hide S.Inv, S.Acquired, Minus;
      ghost var s := Submission();
      S.InvMeans(sqEntries, s, submissions);
      S.StepKeeps(sqEntries, s, submissions, S.LoadHead);
      var head := sqHead;
      submissions, sqPlace := S.Track(sqEntries, s, submissions, S.LoadHead), S.Loaded(head);
      assert Submission() == S.Next(sqEntries, s, S.LoadHead);
      KernelTake(takes);
      ghost var t := Submission();
      ghost var h := submissions;
      S.InvMeans(sqEntries, t, h);
      S.StepKeeps(sqEntries, t, h, S.Acquire);
      S.AcquireAnswers(sqEntries, t, h);
      S.AcquiredSmall(sqEntries, t);
      submissions, sqPlace := S.Track(sqEntries, t, h, S.Acquire), S.Outside;
      var tail := sqTailLocal;
      if Minus(tail, head) >= sqEntries {
        assert Submission() == S.Next(sqEntries, t, S.Acquire);
        return None;
      }
      var idx := tail % sqEntries;
      forall k: nat | h.head <= k < h.local
        ensures k % sqEntries != idx
      {
        S.SlotIsFree(sqEntries, t, h, k);
      }
      sqes[idx] := S.CLEARED;
      sqArray[idx] := idx;
      sqTailLocal := Successor(tail);
      assert Submission() == S.Next(sqEntries, t, S.Acquire);
      return Some(idx);
    }

    /**
    Publishes everything acquired and enters the kernel, unless there is nothing to submit. `enter` is what
    the kernel answers, a count or a negated error number, when it is told how many entries are new.
    */
    method Submit(enter: u32 -> int) returns (ret: int)
      requires SqValid()
      modifies `sqTail, `submissions
      ensures SqValid() && submissions == old(submissions).(tail := old(submissions.local))
      ensures
        var toSubmit := old(submissions.local) - old(submissions.tail);
        0 <= toSubmit < TWO32 && ret == if toSubmit == 0 then 0 else enter(toSubmit)
    {
      hide S.Inv, Minus;
      ghost var s := Submission();
      S.PublishCounts(sqEntries, s, submissions);
      var toSubmit := Minus(sqTailLocal, sqTail);
      S.StepKeeps(sqEntries, s, submissions, S.Publish);
      submissions := S.Track(sqEntries, s, submissions, S.Publish);
      if toSubmit == 0 { return 0; }
      sqTail := sqTailLocal;
      assert Submission() == S.Next(sqEntries, s, S.Publish);
      ret := enter(toSubmit);
    }

    /** The same, but the kernel is entered in any case, to wait for completions. */
    method SubmitAndWait(minComplete: u32, enter: (u32, u32) -> int) returns (ret: int)
      requires SqValid()
      modifies `sqTail, `submissions
      ensures SqValid() && submissions == old(submissions).(tail := old(submissions.local))
      ensures
        var toSubmit := old(submissions.local) - old(submissions.tail);
        0 <= toSubmit < TWO32 && ret == enter(toSubmit, minComplete)
    {
      hide S.Inv, Minus;
      ghost var s := Submission();
      S.PublishCounts(sqEntries, s, submissions);
      var toSubmit := Minus(sqTailLocal, sqTail);
      S.StepKeeps(sqEntries, s, submissions, S.Publish);
      submissions := S.Track(sqEntries, s, submissions, S.Publish);
      sqTail := sqTailLocal;
      assert Submission() == S.Next(sqEntries, s, S.Publish);
      ret := enter(toSubmit, minComplete);
    }

    // ---- Completion --------------------------------------------------------------------------------------

    /** Reaps what was posted when it started; the kernel posts `posts(i)` before callback i. */
    method ForEachCqe(posts: nat -> seq<C.Cqe>) returns (seen: seq<C.Cqe>)
      requires CqValid() && cqPlace == C.Outside
      modifies `cqHead, `cqTail, `completions, `cqPlace, cqes
      ensures CqValid() && cqPlace == C.Outside
      ensures seen == old(completions.posted[completions.head..])
      ensures completions.head == |old(completions.posted)| && old(completions.posted) <= completions.posted
      ensures completions.seen == old(completions.seen) + seen
    {
      hide C.Inv, C.SeenInOrder;
      ghost var start := completions;
      C.InvMeans(cqEntries, Completion(), start);
      BeginReap();
      var head, tail := cqHead, cqTail;
      seen := [];
      while head != tail
        invariant CqValid() && cqPlace == C.Reaping(head, tail)
        invariant completions.head == start.head <= completions.at <= |start.posted| == completions.end
        invariant start.posted <= completions.posted
        invariant seen == start.posted[start.head..completions.at]
        invariant completions.seen == start.seen + seen
        decreases |start.posted| - completions.at
      {
        KernelPost(posts(|seen|));
        var c := Deliver(head, tail);
        OneMore(start.posted, completions.posted, start.head, completions.at - 1, start.seen);
        seen := seen + [c];
        head := Successor(head);
      }
      EndReap(head, tail);
    }

    ghost method BeginReap()
      requires CqValid() && cqPlace == C.Outside
      modifies `completions, `cqPlace
      ensures CqValid() && cqPlace == C.Reaping(cqHead, cqTail)
      ensures completions == old(completions).(at := old(completions.head), end := |old(completions.posted)|)
    {
      hide C.Inv;
      var s, h := Completion(), completions;
      C.StepKeeps(cqEntries, s, h, C.BeginReap);
      assert h.seen + [] == h.seen;
      completions, cqPlace := C.Track(cqEntries, s, h, C.BeginReap), C.Reaping(cqHead, cqTail);
      assert Completion() == C.Next(cqEntries, s, C.BeginReap);
    }

    /** The callback of `for_each_cqe` looks at the slot. */
    method Deliver(head: u32, tail: u32) returns (c: C.Cqe)
      requires CqValid() && cqPlace == C.Reaping(head, tail) && head != tail
      modifies `completions, `cqPlace
      ensures CqValid() && cqPlace == C.Reaping(Successor(head), tail)
      ensures old(completions.at) < |completions.posted| && c == completions.posted[old(completions.at)]
      ensures old(completions.at) < old(completions.end)
      ensures completions == old(completions).(at := old(completions.at) + 1, seen := old(completions.seen) + [c])
    {
      hide C.Inv;
      ghost var s, h := Completion(), completions;
      C.SeesNext(cqEntries, s, h, C.Deliver);
      C.StepKeeps(cqEntries, s, h, C.Deliver);
      c := cqes[head % cqEntries];
      completions, cqPlace := C.Track(cqEntries, s, h, C.Deliver), C.Reaping(Successor(head), tail);
      assert C.SeenBy(cqEntries, s, C.Deliver) == [c];
      assert Completion() == C.Next(cqEntries, s, C.Deliver);
    }

    method EndReap(head: u32, tail: u32)
      requires CqValid() && cqPlace == C.Reaping(head, tail) && head == tail
      modifies `completions, `cqPlace, `cqHead
      ensures CqValid() && cqPlace == C.Outside
      ensures old(completions.at) == old(completions.end)
      ensures completions == old(completions).(head := old(completions.at))
    {
      hide C.Inv;
      ghost var s, h := Completion(), completions;
      C.ReapIsDone(cqEntries, s, h);
      C.StepKeeps(cqEntries, s, h, C.EndReap);
      assert h.seen + [] == h.seen;
      completions, cqPlace := C.Track(cqEntries, s, h, C.EndReap), C.Outside;
      cqHead := head;
      assert Completion() == C.Next(cqEntries, s, C.EndReap);
    }

    /** The next completion without consuming it. */
    method PeekCqe() returns (c: Option<C.Cqe>)
      requires CqValid() && cqPlace == C.Outside
      modifies `completions, `cqPlace
      ensures CqValid() && cqPlace == if c.Some? then C.Peeked else C.Outside
      ensures completions == old(completions)
      ensures c.None? <==> completions.head == |completions.posted|
      ensures c.Some? ==> completions.head < |completions.posted| && c.value == completions.posted[completions.head]
    {
      hide C.Inv;
      ghost var s, h := Completion(), completions;
      C.PeekAnswers(cqEntries, s, h);
      C.StepKeeps(cqEntries, s, h, C.Peek);
      assert h.seen + [] == h.seen;
      completions := C.Track(cqEntries, s, h, C.Peek);
      if cqHead == cqTail {
        assert Completion() == C.Next(cqEntries, s, C.Peek);
        return None;
      }
      cqPlace := C.Peeked;
      assert Completion() == C.Next(cqEntries, s, C.Peek);
      return Some(cqes[cqHead % cqEntries]);
    }

    /** Consumes the completion that was peeked at. */
    method SeenCqe()
      requires CqValid() && cqPlace == C.Peeked
      modifies `completions, `cqPlace, `cqHead
      ensures CqValid() && cqPlace == C.Outside
      ensures old(completions.head) < |completions.posted|
      ensures completions == old(completions).(
        head := old(completions.head) + 1,
        seen := old(completions.seen) + [completions.posted[old(completions.head)]])
    {
      hide C.Inv;
      ghost var s, h := Completion(), completions;
      C.SeesNext(cqEntries, s, h, C.Seen);
      C.StepKeeps(cqEntries, s, h, C.Seen);
      completions, cqPlace := C.Track(cqEntries, s, h, C.Seen), C.Outside;
      cqHead := Successor(cqHead);
      assert Completion() == C.Next(cqEntries, s, C.Seen);
    }
  }

  lemma OneMore(posted: seq<C.Cqe>, more: seq<C.Cqe>, from: nat, at: nat, seen: seq<C.Cqe>)
    requires posted <= more && from <= at < |posted|
    ensures posted[from..at + 1] == posted[from..at] + [more[at]]
    ensures seen + posted[from..at + 1] == seen + posted[from..at] + [more[at]]
  {
  }
}
