/** The receiver's in-order sequence tracker (internal/receiver/receiver.go). */
module SeqTracking {

  /** A completed seq further than this above the prefix is taken for a reset of both sides. */
  const SEQ_JUMP_LIMIT: nat := 100000

  /** Completed but non-contiguous seqs kept before the set is cleared. */
  const SEQ_PENDING_LIMIT: nat := 65536

  /** The value of a tracker: the contiguous prefix end and the completed seqs above it. */
  datatype Tracker = Tracker(last: nat, pending: set<nat>)

  /** Moves the prefix end over every completed successor. */
  function Drain(last: nat, pending: set<nat>): Tracker
    decreases pending
  {
    if last + 1 in pending then Drain(last + 1, pending - {last + 1}) else Tracker(last, pending)
  }

  function Completed(t: Tracker, seqNo: nat): Tracker {
    if seqNo <= t.last then t
    else if seqNo > t.last + SEQ_JUMP_LIMIT then Tracker(seqNo, {})
    else
      var d := Drain(t.last, t.pending + {seqNo});
      if |d.pending| > SEQ_PENDING_LIMIT then Tracker(d.last, {}) else d
  }

  function GapClosed(t: Tracker, upTo: nat): Tracker {
    var last := if upTo > t.last then upTo else t.last;
    Tracker(last, set s | s in t.pending && s > last)
  }

  class SeqTracker {
    var last: nat
    var pending: set<nat>

    function View(): Tracker
      reads this
    {
      Tracker(last, pending)
    }

    constructor ()
      ensures View() == Tracker(0, {})
    {
      last, pending := 0, {};
    }

    method Init(v: nat)
      modifies this
      ensures View() == Tracker(v, {})
    {
      last, pending := v, {};
    }

    method CloseGap(upTo: nat)
      modifies this
      ensures View() == GapClosed(old(View()), upTo)
    {
      if upTo > last {
        last := upTo;
      }
      pending := set s | s in pending && s > last;
    }

    /** Records a completed seq; the result says whether the prefix end moved. */
    method Done(seqNo: nat) returns (advanced: bool)
      modifies this
      ensures View() == Completed(old(View()), seqNo)
      ensures advanced <==> last > old(last)
    {
      if seqNo <= last {
        return false;
      }
      if seqNo > last + SEQ_JUMP_LIMIT {
        last, pending := seqNo, {};
        return true;
      }
      pending := pending + {seqNo};
      advanced := false;
      while last + 1 in pending
        invariant Drain(last, pending) == Drain(old(last), old(pending) + {seqNo})
        invariant last >= old(last)
        invariant advanced <==> last > old(last)
        decreases pending
      {
        pending := pending - {last + 1};
        last := last + 1;
        advanced := true;
      }
      if |pending| > SEQ_PENDING_LIMIT {
        pending := {};
      }
    }
  }

  // ---------------------------------------------------------------- prefix soundness

  /** Every seq up to `n` is in `finished`. */
  ghost predicate Covers(finished: set<nat>, n: nat) {
    forall s: nat | 1 <= s <= n :: s in finished
  }

  /** What the tracker may claim: everything up to `last` and everything in `pending` is finished. */
  ghost predicate Sound(t: Tracker, finished: set<nat>) {
    Covers(finished, t.last) && t.pending <= finished
  }

  lemma {:induction false} DrainSound(last: nat, pending: set<nat>, finished: set<nat>)
    requires Covers(finished, last) && pending <= finished
    ensures Sound(Drain(last, pending), finished)
    ensures Drain(last, pending).last >= last
    decreases pending
  {
    if last + 1 in pending {
      DrainSound(last + 1, pending - {last + 1}, finished);
    }
  }

  /** Marking a finished seq keeps the claim, unless it jumps over an unfinished one. */
  lemma CompletedSound(t: Tracker, seqNo: nat, finished: set<nat>)
    requires Sound(t, finished) && seqNo in finished
    requires seqNo > t.last + SEQ_JUMP_LIMIT ==> Covers(finished, seqNo - 1)
    ensures Sound(Completed(t, seqNo), finished)
    ensures Completed(t, seqNo).last >= t.last
  {
    DrainSound(t.last, t.pending + {seqNo}, finished);
  }

  lemma GapClosedSound(t: Tracker, upTo: nat, finished: set<nat>)
    requires Sound(t, finished) && Covers(finished, upTo)
    ensures Sound(GapClosed(t, upTo), finished)
    ensures GapClosed(t, upTo).last >= t.last
  {
  }

  /** The tracker has been told that this seq is done, or takes it for done. */
  predicate Knows(t: Tracker, s: nat) {
    s <= t.last || s in t.pending
  }

  /** Closing a gap adds the seqs of the gap to what is done and forgets none. */
  lemma GapClosedKnows(t: Tracker, upTo: nat, s: nat)
    ensures Knows(GapClosed(t, upTo), s) <==> Knows(t, s) || s <= upTo
    ensures s in GapClosed(t, upTo).pending ==> s > GapClosed(t, upTo).last >= upTo
  {
  }

  /** The next seq moves the end of the prefix to itself or further. */
  lemma CompletedReaches(t: Tracker, seqNo: nat)
    requires seqNo <= t.last + 1
    ensures Completed(t, seqNo).last >= seqNo
  {
    if seqNo > t.last {
      assert seqNo in t.pending + {seqNo};
      DrainGrows(seqNo, t.pending + {seqNo} - {seqNo});
    }
  }

  lemma {:induction false} DrainGrows(last: nat, pending: set<nat>)
    ensures Drain(last, pending).last >= last
    decreases pending
  {
    if last + 1 in pending {
      DrainGrows(last + 1, pending - {last + 1});
    }
  }

  /** A jump is the only way `Completed` claims an unfinished seq, and it then always does. */
  lemma CompletedSoundIff(t: Tracker, seqNo: nat, finished: set<nat>)
    requires Sound(t, finished) && seqNo in finished
    ensures Sound(Completed(t, seqNo), finished)
            <==> (seqNo > t.last + SEQ_JUMP_LIMIT ==> Covers(finished, seqNo - 1))
  {
    if seqNo > t.last + SEQ_JUMP_LIMIT {
      if Sound(Completed(t, seqNo), finished) {
        assert Covers(finished, seqNo);
      }
    } else {
      CompletedSound(t, seqNo, finished);
    }
  }

  // ---------------------------------------------------------------- exactness of the prefix

  /** `k` is where the contiguous run of completed seqs above `start` ends. */
  ghost predicate IsPrefixEnd(start: nat, completed: set<nat>, k: nat) {
    k >= start && (forall s: nat | start < s <= k :: s in completed) && k + 1 !in completed
  }

  /** The tracker after completing `calls` in order, from the restored value `start`. */
  function After(start: nat, calls: seq<nat>): Tracker {
    if calls == [] then Tracker(start, {})
    else Completed(After(start, calls[..|calls| - 1]), calls[|calls| - 1])
  }

  /** No call of the run was a jump. */
  ghost predicate NoJump(start: nat, calls: seq<nat>) {
    calls != [] ==>
      var n := |calls| - 1;
      NoJump(start, calls[..n]) && calls[n] <= After(start, calls[..n]).last + SEQ_JUMP_LIMIT
  }

  /** The pending set was never cleared for being too large. */
  ghost predicate NoOverflow(start: nat, calls: seq<nat>) {
    calls != [] ==>
      var n := |calls| - 1;
      var t := After(start, calls[..n]);
      NoOverflow(start, calls[..n]) && |Drain(t.last, t.pending + {calls[n]}).pending| <= SEQ_PENDING_LIMIT
  }

  /** The prefix end is where the run of `done` seqs above `start` ends, and what is done above it
      is pending. */
  ghost predicate Exact(start: nat, done: set<nat>, t: Tracker) {
    IsPrefixEnd(start, done, t.last) && forall s: nat :: s in t.pending <==> s in done && s > t.last
  }

  /** Every seq from `start` to the prefix end is done, and so is every pending one. */
  ghost predicate Within(start: nat, done: set<nat>, t: Tracker) {
    t.last >= start && t.pending <= done && forall s: nat | start < s <= t.last :: s in done
  }

  function Elements(calls: seq<nat>): set<nat> {
    set s | s in calls
  }

  lemma {:induction false} DrainExact(start: nat, done: set<nat>, last: nat, pending: set<nat>)
    requires last >= start && forall s: nat | start < s <= last :: s in done
    requires forall s: nat :: s in pending <==> s in done && s > last
    ensures Exact(start, done, Drain(last, pending))
    decreases pending
  {
    if last + 1 in pending {
      DrainExact(start, done, last + 1, pending - {last + 1});
    }
  }

  lemma CompletedExact(start: nat, done: set<nat>, t: Tracker, x: nat)
    requires Exact(start, done, t) && x <= t.last + SEQ_JUMP_LIMIT
    requires |Drain(t.last, t.pending + {x}).pending| <= SEQ_PENDING_LIMIT
    ensures Exact(start, done + {x}, Completed(t, x))
  {
    if x > t.last {
      DrainExact(start, done + {x}, t.last, t.pending + {x});
    }
  }

  /** Without a jump or an overflow the prefix end is exact after any calls in any order, repeats
      included. */
  lemma {:induction false} AfterExact(start: nat, calls: seq<nat>)
    requires NoJump(start, calls) && NoOverflow(start, calls)
    ensures Exact(start, Elements(calls), After(start, calls))
  {
    if calls != [] {
      var n := |calls| - 1;
      AfterExact(start, calls[..n]);
      ElementsSnoc(calls);
      CompletedExact(start, Elements(calls[..n]), After(start, calls[..n]), calls[n]);
    }
  }

  lemma ElementsSnoc(calls: seq<nat>)
    requires calls != []
    ensures Elements(calls) == Elements(calls[..|calls| - 1]) + {calls[|calls| - 1]}
  {
    assert calls == calls[..|calls| - 1] + [calls[|calls| - 1]];
  }

  lemma {:induction false} DrainWithin(start: nat, done: set<nat>, last: nat, pending: set<nat>)
    requires Within(start, done, Tracker(last, pending))
    ensures Within(start, done, Drain(last, pending))
    decreases pending
  {
    if last + 1 in pending {
      DrainWithin(start, done, last + 1, pending - {last + 1});
    }
  }

  /** Clearing an overflowing pending set can only leave the prefix end short of the true one. */
  lemma {:induction false} AfterWithin(start: nat, calls: seq<nat>)
    requires NoJump(start, calls)
    ensures Within(start, Elements(calls), After(start, calls))
    ensures forall k | IsPrefixEnd(start, Elements(calls), k) :: After(start, calls).last <= k
  {
    if calls != [] {
      var n := |calls| - 1;
      var t := After(start, calls[..n]);
      AfterWithin(start, calls[..n]);
      ElementsSnoc(calls);
      if calls[n] > t.last {
        DrainWithin(start, Elements(calls), t.last, t.pending + {calls[n]});
      }
    }
  }
}
