/** The receiver's frame handler as the code runs it (internal/receiver/receiver.go), proved to be one
    of the runs of the handler in the transition system. */
module ReceiverCode {
  import opened Bytes
  import opened SeqTracking
  import opened Delivery
  import FrameCodec

  /** One call of the handler: frame `i` of connection `c`; `zero` says whether its frame index is 0. */
  datatype Job = Job(c: nat, i: nat, frame: Frame, zero: bool)

  /** The call runs and has come to `pc`. */
  predicate At(cfg: Config, s: State, j: Job, pc: Pc) {
    && j.c < |s.conns| && j.i < |s.conns[j.c].runs| && j.i < |s.conns[j.c].sent| && s.conns[j.c].alive
    && s.conns[j.c].sent[j.i] == j.frame && s.conns[j.c].runs[j.i] == pc
    && j.zero == IndexZero(cfg, s.conns[j.c].sent, j.i)
  }

  /** A step of anything but this call, while its process lives. */
  predicate IsOther(a: Action, j: Job) {
    !a.ReceiverCrash? && !(a.Handle? && a.c == j.c && a.i == j.i)
  }

  /** The steps of the others, each if it can be taken. */
  function AfterOthers(cfg: Config, s: State, j: Job, others: seq<Action>): State {
    if others == [] then s
    else
      var n := |others| - 1;
      var t := AfterOthers(cfg, s, j, others[..n]);
      if IsOther(others[n], j) && Enabled(cfg, t, others[n]) then Apply(cfg, t, others[n]) else t
  }

  lemma StepGrows(cfg: Config, r: Receiver, f: Frame, zero: bool, pc: Pc, h: HandlerStep)
    requires CanStep(cfg, r, f, pc, h)
    ensures var t := Step(cfg, r, f, zero, pc, h).0;
            t.lastSeq >= r.lastSeq && r.delivered <= t.delivered
  {
    hide Completed, GapClosed, GapInflight, AddInflight, RemoveInflight;
  }

  lemma OtherKeeps(cfg: Config, s: State, a: Action, j: Job, pc: Pc)
    requires At(cfg, s, j, pc) && IsOther(a, j) && Enabled(cfg, s, a)
    ensures var t := Apply(cfg, s, a);
            && At(cfg, t, j, pc) && t.receiver.lastSeq >= s.receiver.lastSeq
            && s.receiver.delivered <= t.receiver.delivered
  {
    hide CanStep, Step;
    if a.Handle? {
      var k := s.conns[a.c];
      StepGrows(cfg, s.receiver, k.sent[a.i], IndexZero(cfg, k.sent, a.i), k.runs[a.i], a.step);
    }
    var k, l := s.conns[j.c], Apply(cfg, s, a).conns[j.c];
    assert k.sent <= l.sent && k.alive == l.alive;
    assert forall n | 0 <= n <= j.i :: l.sent[n] == k.sent[n];
  }

  lemma OwnStep(cfg: Config, s: State, j: Job, pc: Pc, h: HandlerStep)
    requires At(cfg, s, j, pc) && CanStep(cfg, s.receiver, j.frame, pc, h)
    ensures var a := Handle(j.c, j.i, h);
            var (r, next) := Step(cfg, s.receiver, j.frame, j.zero, pc, h);
            Enabled(cfg, s, a) && Apply(cfg, s, a).receiver == r && At(cfg, Apply(cfg, s, a), j, next)
  {
    hide CanStep, Step;
  }

  lemma RunOn(cfg: Config, run: seq<Action>, s: State, a: Action)
    requires Exec(cfg, run) == Some(s) && Enabled(cfg, s, a)
    ensures Exec(cfg, run + [a]) == Some(Apply(cfg, s, a))
  {
    hide Enabled, Apply;
    assert (run + [a])[..|run|] == run;
  }

  /** What one call finds: whether the frame decodes and its payload decompresses, the outcome of the write,
      and which saves of last_seq happen. */
  datatype Call = Call(decodes: bool, decompresses: bool, outcome: WriteOutcome, saveAtGap: bool, saveAtDone: bool)

  class ReceiverState {
    var lastSeq: nat
    const tracker: SeqTracker
    var inflight: map<nat, nat>
    /** last_seq in its file. */
    var persisted: nat
    /** What the target and the DLQ hold. */
    var delivered: set<Frame>
    /** The whole system, and the run that led to it. */
    const cfg: Config
    var world: State
    ghost var history: seq<Action>

    ghost function View(): Receiver
      reads this, tracker
    {
      Receiver(lastSeq, tracker.View(), inflight, persisted, delivered)
    }

    /** The receiver is that of the system, which got there by a run. */
    ghost predicate Valid()
      reads this, tracker
    {
      View() == world.receiver && Exec(cfg, history) == Some(world)
    }

    /** A receiver process starts from its file. */
    constructor (fileSeq: nat, before: set<Frame>, config: Config, s: State, ghost run: seq<Action>)
      requires Exec(config, run) == Some(s)
      requires s.receiver == Receiver(fileSeq, Tracker(fileSeq, {}), map[], fileSeq, before)
      ensures View() == Receiver(fileSeq, Tracker(fileSeq, {}), map[], fileSeq, before)
      ensures Valid() && fresh(tracker) && cfg == config && world == s && history == run
    {
      lastSeq, inflight, persisted, delivered := fileSeq, map[], fileSeq, before;
      cfg, world, history := config, s, run;
      tracker := new SeqTracker();
      new;
      tracker.Init(fileSeq);
    }

    method Register(s: nat)
      modifies this`inflight
      ensures inflight == AddInflight(old(inflight), s)
    {
      inflight := inflight[s := (if s in inflight then inflight[s] else 0) + 1];
    }

    method Unregister(s: nat)
      modifies this`inflight
      ensures inflight == RemoveInflight(old(inflight), s)
    {
      if s !in inflight || inflight[s] <= 1 {
        inflight := inflight - {s};
      } else {
        inflight := inflight[s := inflight[s] - 1];
      }
    }

    /** last_seq only grows; saving it is throttled. */
    method AdvanceSeq(s: nat, save: bool)
      modifies this`lastSeq, this`persisted
      ensures lastSeq == (if s > old(lastSeq) then s else old(lastSeq))
      ensures persisted == if save then s else old(persisted)
    {
      if s > lastSeq {
        lastSeq := s;
      }
      if save {
        persisted := s;
      }
    }

    /** Other parts of the system act, other calls of the handler among them. */
    method Elapse(others: seq<Action>, j: Job, ghost pc: Pc)
      requires Valid() && At(cfg, world, j, pc)
      modifies this, tracker
      ensures Valid() && At(cfg, world, j, pc)
      ensures lastSeq >= old(lastSeq) && old(delivered) <= delivered && old(history) <= history
      ensures world == AfterOthers(cfg, old(world), j, others)
      ensures others == [] ==> View() == old(View()) && world == old(world) && history == old(history)
    {
      hide At, IsOther, Enabled, Apply, Exec;
      for n := 0 to |others|
        invariant Valid() && At(cfg, world, j, pc)
        invariant lastSeq >= old(lastSeq) && old(delivered) <= delivered && old(history) <= history
        invariant world == AfterOthers(cfg, old(world), j, others[..n])
        invariant n == 0 ==> View() == old(View()) && world == old(world) && history == old(history)
      {
        var a := others[n];
        assert others[..n + 1][..n] == others[..n];
        if IsOther(a, j) && Enabled(cfg, world, a) {
          OtherKeeps(cfg, world, a, j, pc);
          RunOn(cfg, history, world, a);
          world, history := Apply(cfg, world, a), history + [a];
          lastSeq, inflight, persisted := world.receiver.lastSeq, world.receiver.inflight, world.receiver.persisted;
          delivered := world.receiver.delivered;
          tracker.last, tracker.pending := world.receiver.tracker.last, world.receiver.tracker.pending;
        }
      }
      assert others[..|others|] == others;
    }

    /** What the call has just done is step `h` of the system. */
    method Performed(j: Job, ghost pc: Pc, h: HandlerStep)
      requires Exec(cfg, history) == Some(world) && At(cfg, world, j, pc)
      requires CanStep(cfg, world.receiver, j.frame, pc, h)
      requires View() == Step(cfg, world.receiver, j.frame, j.zero, pc, h).0
      modifies this`world, this`history
      ensures Valid() && At(cfg, world, j, Step(cfg, old(world.receiver), j.frame, j.zero, pc, h).1)
      ensures old(history) <= history
    {
      hide At, CanStep, Step, Enabled, Apply, Exec;
      var a := Handle(j.c, j.i, h);
      OwnStep(cfg, world, j, pc, h);
      RunOn(cfg, history, world, a);
      world, history := Apply(cfg, world, a), history + [a];
    }

    /** Advances last_seq over a gap none of whose frames is being handled. Others act between the steps. */
    method TryCloseGap(j: Job, save: bool, others: nat -> seq<Action>) returns (closed: bool)
      requires Valid() && At(cfg, world, j, Closing) && j.frame.Data?
      modifies this, tracker
      ensures Valid() && At(cfg, world, j, Ready)
      ensures lastSeq >= old(lastSeq) && old(delivered) <= delivered && old(history) <= history
      ensures Alone(others) ==>
                && inflight == old(inflight)
                && (closed <==> j.frame.seqNo > old(lastSeq) + 1 && !GapInflight(inflight, old(lastSeq), j.frame.seqNo))
                && (!closed ==> View() == old(View()))
                && (closed ==>
                      var t := GapClosed(old(tracker.View()), j.frame.seqNo - 1);
                      View() == old(View()).(tracker := t,
                                             lastSeq := if t.last > old(lastSeq) then t.last else old(lastSeq),
                                             persisted := if save then t.last else old(persisted)))
    {
      hide At, Exec, GapClosed;
      var seqNo := j.frame.seqNo;
      var last := lastSeq;
      Performed(j, Closing, ReadLast);
      if seqNo <= last + 1 {
        return false;
      }
      Elapse(others(0), j, Scanning(last));
      closed := ScanGap(seqNo, last);
      Performed(j, Scanning(last), HandlerStep.CloseGap);
      if !closed {
        return;
      }
      Raise(j, ForGap, save, others);
    }

    /** With the counts locked: closes the gap in the tracker if none of its seqs is counted. */
    method ScanGap(seqNo: nat, last: nat) returns (closed: bool)
      requires last < seqNo
      modifies tracker
      ensures closed <==> !GapInflight(inflight, last, seqNo)
      ensures tracker.View() == if closed then GapClosed(old(tracker.View()), seqNo - 1) else old(tracker.View())
    {
      for s := last + 1 to seqNo
        invariant forall x | last < x < s :: x !in inflight
      {
        if s in inflight {
          return false;
        }
      }
      tracker.CloseGap(seqNo - 1);
      return true;
    }

    /** last_seq follows the tracker. */
    method Raise(j: Job, why: Purpose, save: bool, others: nat -> seq<Action>)
      requires Valid() && At(cfg, world, j, Moved(why)) && j.frame.Data?
      modifies this, tracker
      ensures Valid() && At(cfg, world, j, Resume(why))
      ensures lastSeq >= old(lastSeq) && old(delivered) <= delivered && old(history) <= history
      ensures Alone(others) ==>
                var t := old(tracker.last);
                View() == old(View()).(lastSeq := if t > old(lastSeq) then t else old(lastSeq),
                                       persisted := if save then t else old(persisted))
    {
      hide At, Exec;
      Elapse(others(1), j, Moved(why));
      var value := tracker.last;
      Performed(j, Moved(why), LoadTracker);
      Elapse(others(2), j, Storing(value, why));
      AdvanceSeq(value, save);
      Performed(j, Storing(value, why), StoreLast(save));
    }

    /** The frame is done: the tracker, then last_seq. */
    method MarkDone(j: Job, save: bool, others: nat -> seq<Action>)
      requires Valid() && At(cfg, world, j, Written) && j.frame.Data? && cfg.seqJumps
      modifies this, tracker
      ensures Valid() && At(cfg, world, j, Releasing(Success))
      ensures lastSeq >= old(lastSeq) && old(delivered) <= delivered && old(history) <= history
      ensures Alone(others) ==>
                var t := Completed(old(tracker.View()), j.frame.seqNo);
                View() == if t.last > old(tracker.last)
                          then old(View()).(tracker := t,
                                            lastSeq := if t.last > old(lastSeq) then t.last else old(lastSeq),
                                            persisted := if save then t.last else old(persisted))
                          else old(View()).(tracker := t)
    {
      hide At, Exec, Completed;
      var advanced := tracker.Done(j.frame.seqNo);
      Performed(j, Written, HandlerStep.MarkDone);
      if advanced {
        Raise(j, ForDone, save, others);
      }
    }

    /** One call of the handler, with steps of everything else, other calls included, between any two of its
        own: all together are a run of the system, of one in which seqs may jump, since nothing here keeps a
        frame from being far ahead. */
    method HandleFrame(j: Job, call: Call, others: (nat, nat) -> seq<Action>) returns (ack: Ack, duplicate: bool)
      requires Valid() && At(cfg, world, j, Spawned) && cfg.seqJumps
      modifies this, tracker
      ensures Valid() && At(cfg, world, j, Finished(ack)) && old(history) <= history
      ensures ack == Success <==>
                && call.decodes
                && (j.frame.Data? && !duplicate ==>
                      && call.decompresses && HasText(j.frame.payload)
                      && (call.outcome.Stored? || call.outcome == Poison(true)))
      ensures duplicate ==> j.frame.Data? && j.frame.seqNo <= lastSeq
      ensures j.frame.Data? && call.decodes && !duplicate ==> j.frame.seqNo > old(lastSeq)
      ensures j.frame.Data? && ack == Success && !duplicate ==> j.frame in delivered
      ensures lastSeq >= old(lastSeq) && old(delivered) <= delivered
      ensures (forall m, n :: others(m, n) == []) && (forall s | s in old(inflight) :: old(inflight)[s] > 0) ==>
                inflight == old(inflight)
      ensures (forall m, n :: others(m, n) == []) && j.frame.Data? && ack == Success ==>
                && (if duplicate then View() == old(View()) else Marked(old(View()), View(), j))
                && (!duplicate && Closes(old(View()), j) ==> lastSeq >= j.frame.seqNo)
    {
      hide At, Exec, HasText, Closes;
      duplicate := false;
      Elapse(others(0, 0), j, Spawned);
      if !call.decodes {
        Performed(j, Spawned, Reject);
        return Fail, false;
      }
      if j.frame.Heartbeat? {
        Performed(j, Spawned, CheckDuplicate);
        return Success, false;
      }
      duplicate := j.frame.seqNo <= lastSeq;
      Performed(j, Spawned, CheckDuplicate);
      if duplicate {
        return Success, true;
      }
      ghost var before := View();
      ack := HandleNew(j, call, others);
      if Marked(before, View(), j) {
        GapIsPassed(before, View(), j);
      }
    }

    /** The frame is not a duplicate: it is counted while it is handled. */
    method HandleNew(j: Job, call: Call, others: (nat, nat) -> seq<Action>) returns (ack: Ack)
      requires Valid() && At(cfg, world, j, Fresh) && j.frame.Data? && cfg.seqJumps
      modifies this, tracker
      ensures Valid() && At(cfg, world, j, Finished(ack))
      ensures lastSeq >= old(lastSeq) && old(delivered) <= delivered && old(history) <= history
      ensures ack == Success ==> j.frame in delivered
      ensures ack == Success <==>
                && call.decompresses && HasText(j.frame.payload)
                && (call.outcome.Stored? || call.outcome == Poison(true))
      ensures (forall m, n :: others(m, n) == []) && (forall s | s in old(inflight) :: old(inflight)[s] > 0) ==>
                inflight == old(inflight)
      ensures (forall m, n :: others(m, n) == []) && ack == Success ==> Marked(old(View()), View(), j)
    {
      hide At, Exec, HasText, Step, CanStep, AddInflight, RemoveInflight, Marked;
      Elapse(others(0, 1), j, Fresh);
      ghost var was := View();
      Enter(j);
      ghost var entered := View();
      ack := Process(j, call, others);
      ghost var left := View();
      Elapse(others(0, 3), j, Releasing(ack));
      Leave(j, ack);
      OwnSeqIsOutside(was, entered, left, View(), j);
      if forall s | s in was.inflight :: was.inflight[s] > 0 {
        RegisteredAndReleased(was.inflight, j.frame.seqNo);
      }
    }

    /** The gap before the frame, its write and its completion. */
    method Process(j: Job, call: Call, others: (nat, nat) -> seq<Action>) returns (ack: Ack)
      requires Valid() && At(cfg, world, j, Registered) && j.frame.Data? && cfg.seqJumps
      modifies this, tracker
      ensures Valid() && At(cfg, world, j, Releasing(ack))
      ensures lastSeq >= old(lastSeq) && old(delivered) <= delivered && old(history) <= history
      ensures ack == Success ==> j.frame in delivered
      ensures ack == Success <==>
                && call.decompresses && HasText(j.frame.payload)
                && (call.outcome.Stored? || call.outcome == Poison(true))
      ensures (forall m, n :: others(m, n) == []) ==>
                inflight == old(inflight) && (ack == Success ==> Marked(old(View()), View(), j))
    {
      hide At, Exec, HasText, Closes, GapClosed, Completed;
      Elapse(others(0, 2), j, Registered);
      CloseGapIfFirst(j, call.saveAtGap, (n: nat) => others(1, n));
      ack := WriteAndMark(j, call, (n: nat) => others(2, n));
    }

    method Enter(j: Job)
      requires Valid() && At(cfg, world, j, Fresh) && j.frame.Data?
      modifies this`inflight, this`world, this`history
      ensures Valid() && At(cfg, world, j, Registered) && old(history) <= history
      ensures inflight == AddInflight(old(inflight), j.frame.seqNo)
    {
      hide At, Exec, AddInflight;
      Register(j.frame.seqNo);
      Performed(j, Fresh, HandlerStep.Register);
    }

    method Leave(j: Job, ack: Ack)
      requires Valid() && At(cfg, world, j, Releasing(ack)) && j.frame.Data?
      modifies this`inflight, this`world, this`history
      ensures Valid() && At(cfg, world, j, Finished(ack)) && old(history) <= history
      ensures inflight == RemoveInflight(old(inflight), j.frame.seqNo)
    {
      hide At, Exec, RemoveInflight;
      Unregister(j.frame.seqNo);
      Performed(j, Releasing(ack), Release);
    }

    method CloseGapIfFirst(j: Job, save: bool, others: nat -> seq<Action>)
      requires Valid() && At(cfg, world, j, Registered) && j.frame.Data?
      modifies this, tracker
      ensures Valid() && At(cfg, world, j, Ready)
      ensures lastSeq >= old(lastSeq) && old(delivered) <= delivered && old(history) <= history
      ensures Alone(others) ==>
                if Closes(old(View()), j) then
                  var t := GapClosed(old(tracker.View()), j.frame.seqNo - 1);
                  && tracker.View() == t && lastSeq == Higher(t.last, old(lastSeq))
                  && inflight == old(inflight) && delivered == old(delivered)
                else View() == old(View())
    {
      hide At, Exec, GapClosed;
      var last := lastSeq;
      Performed(j, Registered, InspectGap);
      if j.frame.seqNo > last + 1 && j.frame.seqNo <= last + SEQ_JUMP_LIMIT && j.zero {
        Elapse(others(3), j, Closing);
        var _ := TryCloseGap(j, save, others);
      }
      Elapse(others(4), j, Ready);
    }

    method Refuse(j: Job)
      requires Valid() && At(cfg, world, j, Ready) && j.frame.Data?
      modifies this`world, this`history
      ensures Valid() && At(cfg, world, j, Releasing(Fail)) && old(history) <= history
    {
      hide At, Exec;
      Performed(j, Ready, Reject);
    }

    /** The target takes the frame, or the DLQ does, or neither; after a failed write it may be there all the
        same. */
    method WriteFrame(j: Job, outcome: WriteOutcome)
      requires Valid() && At(cfg, world, j, Ready) && j.frame.Data? && HasText(j.frame.payload)
      modifies this`delivered, this`world, this`history
      ensures Valid() && old(history) <= history
      ensures At(cfg, world, j, if outcome.Stored? || outcome == Poison(true) then Written else Releasing(Fail))
      ensures delivered == old(delivered) + if outcome == Transient(false) || outcome == Poison(false) then {}
                                            else {j.frame}
    {
      hide At, Exec, HasText;
      match outcome {
        case Stored => delivered := delivered + {j.frame};
        case Transient(landed) =>
          if landed {
            delivered := delivered + {j.frame};
          }
        case Poison(isolated) =>
          if isolated {
            delivered := delivered + {j.frame};
          }
      }
      Performed(j, Ready, Write(outcome));
    }

    method WriteAndMark(j: Job, call: Call, others: nat -> seq<Action>) returns (ack: Ack)
      requires Valid() && At(cfg, world, j, Ready) && j.frame.Data? && cfg.seqJumps
      modifies this, tracker
      ensures Valid() && At(cfg, world, j, Releasing(ack))
      ensures lastSeq >= old(lastSeq) && old(delivered) <= delivered && old(history) <= history
      ensures ack == Success ==> j.frame in delivered
      ensures ack == Success <==>
                && call.decompresses && HasText(j.frame.payload)
                && (call.outcome.Stored? || call.outcome == Poison(true))
      ensures Alone(others) ==> inflight == old(inflight)
      ensures Alone(others) && ack == Success ==>
                && tracker.View() == Completed(old(tracker.View()), j.frame.seqNo)
                && lastSeq == if tracker.last > old(tracker.last) then Higher(tracker.last, old(lastSeq))
                              else old(lastSeq)
    {
      hide At, Exec, HasText, Step, CanStep, Completed;
      if !call.decompresses || !HasText(j.frame.payload) {
        Refuse(j);
        return Fail;
      }
      WriteFrame(j, call.outcome);
      if call.outcome.Transient? || call.outcome == Poison(false) {
        return Fail;
      }
      Elapse(others(3), j, Written);
      MarkDone(j, call.saveAtDone, others);
      ack := Success;
    }
  }

  function Higher(a: nat, b: nat): nat {
    if a > b then a else b
  }

  /** The frame opens its connection behind a gap of acceptable length in which nothing is being handled. */
  ghost predicate Closes(r: Receiver, j: Job) {
    && j.frame.Data? && j.zero && r.lastSeq + 1 < j.frame.seqNo <= r.lastSeq + SEQ_JUMP_LIMIT
    && !GapInflight(r.inflight, r.lastSeq, j.frame.seqNo)
  }

  /** The gap before the frame is closed if it may be, then its seq is completed, and last_seq follows. */
  ghost predicate Marked(r: Receiver, t: Receiver, j: Job) {
    && j.frame.Data?
    && var closes, n := Closes(r, j), j.frame.seqNo;
       var gone := if closes then GapClosed(r.tracker, n - 1) else r.tracker;
       var last := if closes then Higher(gone.last, r.lastSeq) else r.lastSeq;
       && t.tracker == Completed(gone, n)
       && t.lastSeq == if t.tracker.last > gone.last then Higher(t.tracker.last, last) else last
  }

  /** After a closed gap last_seq reaches the frame itself. */
  lemma GapIsPassed(r: Receiver, t: Receiver, j: Job)
    requires Marked(r, t, j)
    ensures Closes(r, j) ==> t.lastSeq >= j.frame.seqNo
  {
    hide GapInflight;
    if Closes(r, j) {
      var n := j.frame.seqNo;
      CompletedReaches(GapClosed(r.tracker, n - 1), n);
    }
  }

  /** The registration of the frame itself changes nothing about the gap before it. */
  lemma OwnSeqIsOutside(r: Receiver, entered: Receiver, left: Receiver, t: Receiver, j: Job)
    requires j.frame.Data?
    ensures && entered == r.(inflight := AddInflight(r.inflight, j.frame.seqNo))
            && t == left.(inflight := t.inflight) && Marked(entered, left, j) ==>
              Marked(r, t, j)
  {
    hide Completed, GapClosed;
    assert forall s | s < j.frame.seqNo :: s in AddInflight(r.inflight, j.frame.seqNo) <==> s in r.inflight;
  }

  /** Nothing else happens meanwhile. */
  ghost predicate Alone(others: nat -> seq<Action>) {
    forall n :: others(n) == []
  }

  lemma RegisteredAndReleased(m: map<nat, nat>, s: nat)
    requires s in m ==> m[s] > 0
    ensures RemoveInflight(AddInflight(m, s), s) == m
  {
  }

  /** A frame that was encoded from an empty payload decodes and decompresses, but to no text: the handler
      refuses it every time. */
  lemma EmptyPayloadHasNoText(
    typ: Byte, gzip: FrameCodec.Codec, zstd: FrameCodec.Codec, crc32: seq<Byte> -> nat, stamp: nat)
    requires FrameCodec.Inverse(gzip) && FrameCodec.Inverse(zstd)
    requires forall p: seq<Byte> :: crc32(p) < 0x1_0000_0000
    requires stamp < 0x1_0000_0000_0000_0000 && typ != FrameCodec.TYPE_HEARTBEAT
    requires FrameCodec.Encode(typ, 0, [], gzip, zstd, crc32).Ok?
    ensures var b := FrameCodec.Encode(typ, 0, [], gzip, zstd, crc32).value;
            && |b| >= FrameCodec.HEADER_SIZE && FrameCodec.Decode(FrameCodec.Stamped(b, stamp), crc32).Ok?
            && var f := FrameCodec.Decode(FrameCodec.Stamped(b, stamp), crc32).value;
               f.seqNo == stamp && FrameCodec.Decompress(f, gzip, zstd).Ok?
               && !HasText(FrameCodec.Decompress(f, gzip, zstd).value)
  {
    FrameCodec.EncodeDecode(typ, 0, [], gzip, zstd, crc32, stamp);
  }
}
