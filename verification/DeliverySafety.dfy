/** Invariants of the delivery protocol, for every reachable state. */
module DeliverySafety {
  import opened SeqTracking
  import opened Delivery
  import Q = WalQueue

  // ---------------------------------------------------------------- wire order, in every configuration

  /** The newest connection's frames whose ACKs have not been read yet. */
  function Unread(c: Conn): seq<Frame>
    requires c.read <= |c.sent|
  {
    c.sent[c.read..]
  }

  /** The frames `lo..hi - 1` of the log. */
  function Window(log: seq<Payload>, lo: nat, hi: nat): seq<Frame>
    requires 1 <= lo <= hi <= |log| + 1
  {
    seq(hi - lo, k requires 0 <= k < hi - lo => FrameOf(log, lo + k))
  }

  /** ACKs are the handler results in arrival order, none ahead of its frame, and at most
      `maxInflight` frames are launched but not acknowledged. */
  ghost predicate ConnOrdered(cfg: Config, c: Conn) {
    && c.read <= |c.acks| <= |c.runs| <= |c.sent|
    && |c.runs| <= |c.acks| + cfg.maxInflight
    && forall i | 0 <= i < |c.acks| :: c.runs[i] == Finished(c.acks[i])
  }

  ghost predicate Ordered(cfg: Config, s: State) {
    forall n | 0 <= n < |s.conns| :: ConnOrdered(cfg, s.conns[n])
  }

  /** The frames still owed an ACK on the live connection are exactly those the sender waits for. */
  ghost predicate Aligned(cfg: Config, s: State) {
    && (s.connected ==> s.conns != [])
    && (s.connected || s.mode.Idle? || (s.mode.Sending? && s.mode.at == s.mode.lo))
    && (s.mode.Sending? || s.mode.Acking? ==>
          && 1 <= s.mode.lo <= s.mode.at < s.mode.hi <= |s.wal.log| + 1
          && (cfg.window <= 1 ==> s.mode.hi == s.mode.lo + 1))
    && (s.connected ==>
          var c := s.conns[|s.conns| - 1];
          c.read <= |c.sent| && Unread(c) == Awaited(s.wal.log, s.mode))
  }

  function Awaited(log: seq<Payload>, m: Mode): seq<Frame>
    requires m.Sending? || m.Acking? ==> 1 <= m.lo <= m.at < m.hi <= |log| + 1
  {
    match m
    case Idle => []
    case Beating => [Heartbeat]
    case Sending(lo, _, at) => Window(log, lo, at)
    case Acking(_, hi, at) => Window(log, at, hi)
  }

  lemma OrderedHandle(cfg: Config, s: State, c: nat, i: nat, h: HandlerStep)
    requires Ordered(cfg, s) && Enabled(cfg, s, Handle(c, i, h))
    ensures Ordered(cfg, Handled(cfg, s, c, i, h))
  {
    var t := Handled(cfg, s, c, i, h);
    assert ConnOrdered(cfg, s.conns[c]);
    assert !s.conns[c].runs[i].Finished?;
    assert ConnOrdered(cfg, t.conns[c]);
  }

  lemma OrderedStep(cfg: Config, s: State, a: Action)
    requires Ordered(cfg, s) && Enabled(cfg, s, a)
    ensures Ordered(cfg, Apply(cfg, s, a))
  {
    if a.Handle? {
      OrderedHandle(cfg, s, a.c, a.i, a.step);
    }
  }

  lemma WindowGrows(log: seq<Payload>, more: seq<Payload>, lo: nat, hi: nat)
    requires 1 <= lo <= hi <= |log| + 1
    ensures Window(log + more, lo, hi) == Window(log, lo, hi)
  {
    forall k | 0 <= k < hi - lo
      ensures Window(log + more, lo, hi)[k] == Window(log, lo, hi)[k]
    {
      var j := lo + k - 1;
      assert (log + more)[j] == log[j];
      assert FrameOf(log + more, lo + k) == FrameOf(log, lo + k);
    }
  }

  lemma AlignedAppend(cfg: Config, s: State, p: Payload)
    requires Aligned(cfg, s)
    ensures Aligned(cfg, Apply(cfg, s, Append(p)))
  {
    var log, m := s.wal.log, s.mode;
    match m {
      case Sending(lo, _, at) => WindowGrows(log, [p], lo, at);
      case Acking(_, hi, at) => WindowGrows(log, [p], at, hi);
      case _ =>
    }
  }

  lemma AlignedSend(cfg: Config, s: State)
    requires Ordered(cfg, s) && Aligned(cfg, s) && Enabled(cfg, s, Send)
    ensures Aligned(cfg, Apply(cfg, s, Send))
  {
    var t, n, log, at := Apply(cfg, s, Send), |s.conns| - 1, s.wal.log, s.mode.at;
    assert Unread(t.conns[n]) == Unread(s.conns[n]) + [FrameOf(log, at)];
    assert Window(log, s.mode.lo, at + 1) == Window(log, s.mode.lo, at) + [FrameOf(log, at)];
  }

  lemma AlignedReadAck(cfg: Config, s: State)
    requires Ordered(cfg, s) && Aligned(cfg, s) && Enabled(cfg, s, ReadAck)
    ensures Aligned(cfg, Apply(cfg, s, ReadAck))
  {
    hide Window, FrameOf;
    var t, n := Apply(cfg, s, ReadAck), |s.conns| - 1;
    assert ConnOrdered(cfg, s.conns[n]);
    assert Unread(t.conns[n]) == Unread(s.conns[n])[1..];
    if s.mode.Acking? {
      WindowTail(s.wal.log, s.mode.at, s.mode.hi);
    }
  }

  lemma WindowTail(log: seq<Payload>, lo: nat, hi: nat)
    requires 1 <= lo < hi <= |log| + 1
    ensures Window(log, lo, hi) != [] && Window(log, lo, hi)[1..] == Window(log, lo + 1, hi)
    ensures lo + 1 == hi ==> Window(log, lo, hi)[1..] == []
  {
  }

  lemma AlignedStep(cfg: Config, s: State, a: Action)
    requires Ordered(cfg, s) && Aligned(cfg, s) && Enabled(cfg, s, a)
    ensures Aligned(cfg, Apply(cfg, s, a))
  {
    hide Window, FrameOf, ConnOrdered;
    match a {
      case Append(p) => AlignedAppend(cfg, s, p);
      case Send => AlignedSend(cfg, s);
      case ReadAck => AlignedReadAck(cfg, s);
      case Beat =>
        assert Unread(Apply(cfg, s, a).conns[|s.conns| - 1]) == [Heartbeat];
      case _ => NothingAwaited(s.wal.log);
    }
  }

  lemma NothingAwaited(log: seq<Payload>)
    ensures forall lo: nat | 1 <= lo <= |log| + 1 :: Window(log, lo, lo) == []
  {
  }

  /** In every configuration, the ACK byte a sender consumes for seq `at` answers the frame that
      carries seq `at`: no ACK of an earlier window is left on the connection. */
  lemma AckAnswersFrame(cfg: Config, s: State)
    requires Ordered(cfg, s) && Aligned(cfg, s) && Enabled(cfg, s, ReadAck) && s.mode.Acking?
    ensures var c := s.conns[|s.conns| - 1];
            c.sent[c.read] == FrameOf(s.wal.log, s.mode.at) && c.runs[c.read] == Finished(c.acks[c.read])
  {
    var c := s.conns[|s.conns| - 1];
    assert ConnOrdered(cfg, c);
    assert Unread(c)[0] == Window(s.wal.log, s.mode.at, s.mode.hi)[0];
  }

  lemma {:induction false} WireAlong(cfg: Config, run: seq<Action>)
    requires Exec(cfg, run).Some?
    ensures Ordered(cfg, Exec(cfg, run).value) && Aligned(cfg, Exec(cfg, run).value)
  {
    if run != [] {
      var front := run[..|run| - 1];
      WireAlong(cfg, front);
      OrderedStep(cfg, Exec(cfg, front).value, run[|run| - 1]);
      AlignedStep(cfg, Exec(cfg, front).value, run[|run| - 1]);
    }
  }

  // ---------------------------------------------------------------- safety, where it holds

  /** No unrecoverable crash inside a commit; and stop-and-wait, or go-back-N with gzip frames, no send
      failing inside a window and no jump. */
  predicate SafeConfig(cfg: Config) {
    !cfg.commitCrashes && (cfg.window <= 1 || (!cfg.zstd && !cfg.lateSendFailures && !cfg.seqJumps))
  }

  /** The seqs whose frame, with its own payload, was delivered. */
  function DeliveredSeqs(log: seq<Payload>, delivered: set<Frame>): set<nat> {
    set k: nat | 1 <= k <= |log| && FrameOf(log, k) in delivered
  }

  lemma CoversIsDelivered(log: seq<Payload>, delivered: set<Frame>, n: nat)
    ensures Covers(DeliveredSeqs(log, delivered), n) <==> Delivered(log, delivered, n)
  {
    var fin := DeliveredSeqs(log, delivered);
    if Covers(fin, n) {
      assert n > 0 ==> n in fin;
      forall k: nat | 1 <= k <= n
        ensures FrameOf(log, k) in delivered
      {
        assert k in fin;
      }
    }
  }

  lemma DeliveredSeqsGrow(log: seq<Payload>, more: seq<Payload>, d: set<Frame>, d': set<Frame>)
    requires d <= d'
    ensures DeliveredSeqs(log, d) <= DeliveredSeqs(log + more, d')
  {
    forall k | k in DeliveredSeqs(log, d)
      ensures k in DeliveredSeqs(log + more, d')
    {
      assert FrameOf(log + more, k) == FrameOf(log, k);
    }
  }

  /** A data frame carries the payload logged under its seq. When every frame is sent only at the
      WAL head (stop-and-wait), or it is the first data frame of its connection, all earlier seqs
      are finished. */
  ghost predicate FrameOk(cfg: Config, log: seq<Payload>, fin: set<nat>, sent: seq<Frame>, i: nat)
    requires i < |sent|
  {
    sent[i].Data? ==>
      && 1 <= sent[i].seqNo <= |log|
      && sent[i] == FrameOf(log, sent[i].seqNo)
      && (cfg.window <= 1 || (forall j | 0 <= j < i :: sent[j].Heartbeat?) ==> Covers(fin, sent[i].seqNo - 1))
  }

  /** What a handler that has come this far knows. */
  ghost predicate RunOk(fin: set<nat>, f: Frame, zero: bool, pc: Pc) {
    match pc
    case Closing | Scanning(_) => zero
    case Storing(v, why) => Covers(fin, v) && (why.ForDone? && f.Data? ==> f.seqNo in fin)
    case Moved(why) => why.ForDone? && f.Data? ==> f.seqNo in fin
    case Written | Releasing(Success) | Finished(Success) => f.Data? ==> f.seqNo in fin
    case _ => true
  }

  ghost predicate ConnSafe(cfg: Config, log: seq<Payload>, fin: set<nat>, c: Conn) {
    && |c.runs| <= |c.sent|
    && (forall i | 0 <= i < |c.sent| :: FrameOk(cfg, log, fin, c.sent, i))
    && (forall i | 0 <= i < |c.runs| :: RunOk(fin, c.sent[i], IndexZero(cfg, c.sent, i), c.runs[i]))
  }

  ghost predicate ReceiverSafe(fin: set<nat>, r: Receiver) {
    Covers(fin, r.lastSeq) && Covers(fin, r.persisted) && Sound(r.tracker, fin)
  }

  /** The window always starts at the WAL head, so a new connection does too. */
  ghost predicate AtHead(s: State) {
    (s.mode.Sending? ==> s.mode.lo == s.wal.head + 1) && (s.mode.Acking? ==> s.mode.at == s.wal.head + 1)
  }

  function Fin(s: State): set<nat> {
    DeliveredSeqs(s.wal.log, s.receiver.delivered)
  }

  ghost predicate Inv(cfg: Config, s: State) {
    && Ordered(cfg, s) && Aligned(cfg, s)
    && Q.Valid(s.wal) && s.wal.head <= s.everCommitted <= |s.wal.log|
    && Covers(Fin(s), s.everCommitted)
    && AtHead(s)
    && ReceiverSafe(Fin(s), s.receiver)
    && forall n | 0 <= n < |s.conns| :: ConnSafe(cfg, s.wal.log, Fin(s), s.conns[n])
  }

  lemma ConnSafeGrows(cfg: Config, log: seq<Payload>, more: seq<Payload>, fin: set<nat>, fin': set<nat>, c: Conn)
    requires ConnSafe(cfg, log, fin, c) && fin <= fin'
    ensures ConnSafe(cfg, log + more, fin', c)
  {
    forall i | 0 <= i < |c.sent|
      ensures FrameOk(cfg, log + more, fin', c.sent, i)
    {
      assert FrameOk(cfg, log, fin, c.sent, i);
      if c.sent[i].Data? {
        assert FrameOf(log + more, c.sent[i].seqNo) == FrameOf(log, c.sent[i].seqNo);
      }
    }
    forall i | 0 <= i < |c.runs|
      ensures RunOk(fin', c.sent[i], IndexZero(cfg, c.sent, i), c.runs[i])
    {
      assert RunOk(fin, c.sent[i], IndexZero(cfg, c.sent, i), c.runs[i]);
    }
  }

  /** One handler operation keeps the receiver's claims and the handler's own. */
  lemma StepSafe(cfg: Config, log: seq<Payload>, r: Receiver, sent: seq<Frame>, i: nat, pc: Pc, h: HandlerStep)
    requires SafeConfig(cfg) && i < |sent| && CanStep(cfg, r, sent[i], pc, h)
    requires var fin := DeliveredSeqs(log, r.delivered);
             ReceiverSafe(fin, r) && FrameOk(cfg, log, fin, sent, i)
             && RunOk(fin, sent[i], IndexZero(cfg, sent, i), pc)
    ensures var (r', pc') := Step(cfg, r, sent[i], IndexZero(cfg, sent, i), pc, h);
            var fin := DeliveredSeqs(log, r'.delivered);
            && DeliveredSeqs(log, r.delivered) <= fin
            && ReceiverSafe(fin, r')
            && RunOk(fin, sent[i], IndexZero(cfg, sent, i), pc')
  {
    var f := sent[i];
    var zero := IndexZero(cfg, sent, i);
    var (r', pc') := Step(cfg, r, f, zero, pc, h);
    var fin := DeliveredSeqs(log, r.delivered);
    DeliveredSeqsGrow(log, [], r.delivered, r'.delivered);
    assert log + [] == log;
    if f.Data? {
      match h {
        case CloseGap =>
          if pc'.Moved? {
            GapClosedSound(r.tracker, f.seqNo - 1, fin);
          }
        case MarkDone => CompletedSound(r.tracker, f.seqNo, fin);
        case _ =>
      }
    }
  }

  lemma HandledConnsSafe(cfg: Config, s: State, c: nat, i: nat, h: HandlerStep)
    requires SafeConfig(cfg) && Inv(cfg, s) && Enabled(cfg, s, Handle(c, i, h))
    ensures var t := Handled(cfg, s, c, i, h);
            && Fin(s) <= Fin(t) && ReceiverSafe(Fin(t), t.receiver)
            && forall n | 0 <= n < |s.conns| :: ConnSafe(cfg, s.wal.log, Fin(t), t.conns[n])
  {
    var t := Handled(cfg, s, c, i, h);
    var log, k := s.wal.log, s.conns[c];
    assert ConnSafe(cfg, log, Fin(s), k);
    StepSafe(cfg, log, s.receiver, k.sent, i, k.runs[i], h);
    forall n | 0 <= n < |s.conns|
      ensures ConnSafe(cfg, log, Fin(t), t.conns[n])
    {
      ConnSafeGrows(cfg, log, [], Fin(s), Fin(t), s.conns[n]);
      assert log + [] == log;
    }
  }

  lemma InvHandle(cfg: Config, s: State, c: nat, i: nat, h: HandlerStep)
    requires SafeConfig(cfg) && Inv(cfg, s) && Enabled(cfg, s, Handle(c, i, h))
    ensures Inv(cfg, Apply(cfg, s, Handle(c, i, h)))
  {
    OrderedStep(cfg, s, Handle(c, i, h));
    AlignedStep(cfg, s, Handle(c, i, h));
    HandledConnsSafe(cfg, s, c, i, h);
  }

  lemma InvAppend(cfg: Config, s: State, p: Payload)
    requires Inv(cfg, s)
    ensures Inv(cfg, Apply(cfg, s, Append(p)))
  {
    var t := Apply(cfg, s, Append(p));
    OrderedStep(cfg, s, Append(p));
    AlignedStep(cfg, s, Append(p));
    DeliveredSeqsGrow(s.wal.log, [p], s.receiver.delivered, s.receiver.delivered);
    forall n | 0 <= n < |s.conns|
      ensures ConnSafe(cfg, t.wal.log, Fin(t), t.conns[n])
    {
      ConnSafeGrows(cfg, s.wal.log, [p], Fin(s), Fin(t), s.conns[n]);
    }
  }

  /** The next frame of a window is the WAL head or follows an earlier frame on its connection. */
  lemma OpensAtHead(cfg: Config, s: State)
    requires Inv(cfg, s) && s.connected && s.mode.Sending? && s.mode.at <= |s.wal.log|
    ensures var sent := s.conns[|s.conns| - 1].sent;
            cfg.window <= 1 || (forall j | 0 <= j < |sent| :: sent[j].Heartbeat?) ==> Covers(Fin(s), s.mode.at - 1)
  {
    var k := s.conns[|s.conns| - 1];
    if s.mode.at > s.mode.lo {
      assert Unread(k)[0] == Window(s.wal.log, s.mode.lo, s.mode.at)[0];
      assert k.sent[k.read].Data?;
    }
  }

  lemma ConnSafeSent(cfg: Config, log: seq<Payload>, fin: set<nat>, k: Conn, f: Frame)
    requires ConnSafe(cfg, log, fin, k) && FrameOk(cfg, log, fin, k.sent + [f], |k.sent|)
    ensures ConnSafe(cfg, log, fin, k.(sent := k.sent + [f]))
  {
    var sent := k.sent + [f];
    forall i | 0 <= i < |k.sent|
      ensures FrameOk(cfg, log, fin, sent, i) && IndexZero(cfg, sent, i) == IndexZero(cfg, k.sent, i)
    {
      assert FrameOk(cfg, log, fin, k.sent, i);
      assert forall j | 0 <= j < i :: sent[j] == k.sent[j];
    }
  }

  /** Sending keeps every connection safe. */
  lemma SentOnSafe(cfg: Config, s: State, f: Frame)
    requires Inv(cfg, s) && s.connected
    requires f.Data? ==> s.mode.Sending? && s.mode.at <= |s.wal.log| && f == FrameOf(s.wal.log, s.mode.at)
    ensures forall n | 0 <= n < |s.conns| :: ConnSafe(cfg, s.wal.log, Fin(s), SentOn(s, f)[n])
  {
    var k := s.conns[|s.conns| - 1];
    if f.Data? {
      OpensAtHead(cfg, s);
    }
    assert ConnSafe(cfg, s.wal.log, Fin(s), k);
    var sent := k.sent + [f];
    assert FrameOk(cfg, s.wal.log, Fin(s), sent, |k.sent|) by {
      assert forall j | 0 <= j < |k.sent| :: sent[j] == k.sent[j];
    }
    ConnSafeSent(cfg, s.wal.log, Fin(s), k, f);
  }

  /** A success ACK read for seq `at` means that seq was delivered. */
  lemma AckMeansDelivered(cfg: Config, s: State)
    requires Inv(cfg, s) && Enabled(cfg, s, ReadAck) && s.mode.Acking?
    ensures var c := s.conns[|s.conns| - 1];
            c.acks[c.read] == Success ==> s.mode.at in Fin(s)
  {
    var c := s.conns[|s.conns| - 1];
    AckAnswersFrame(cfg, s);
    assert ConnSafe(cfg, s.wal.log, Fin(s), c);
  }

  /** Reading a byte changes neither what was delivered nor what the connections carry. */
  lemma ReadKeepsConns(cfg: Config, s: State)
    requires Inv(cfg, s) && Enabled(cfg, s, ReadAck)
    ensures var t := Apply(cfg, s, ReadAck);
            && t.wal.log == s.wal.log && t.receiver == s.receiver && Fin(t) == Fin(s)
            && forall n | 0 <= n < |t.conns| :: ConnSafe(cfg, t.wal.log, Fin(t), t.conns[n])
  {
    hide DeliveredSeqs, Ordered, Aligned, AtHead, ReceiverSafe;
    var t := Apply(cfg, s, ReadAck);
    forall n | 0 <= n < |t.conns|
      ensures ConnSafe(cfg, t.wal.log, Fin(t), t.conns[n])
    {
      assert ConnSafe(cfg, s.wal.log, Fin(s), s.conns[n]);
    }
  }

  /** What is committed by a success was delivered, and the window still starts at the WAL head. */
  lemma ReadCommits(cfg: Config, s: State)
    requires Inv(cfg, s) && SafeConfig(cfg) && Enabled(cfg, s, ReadAck)
    ensures var t := Apply(cfg, s, ReadAck);
            && Q.Valid(t.wal) && t.wal.head <= t.everCommitted <= |t.wal.log|
            && Covers(Fin(s), t.everCommitted) && AtHead(t)
  {
    hide DeliveredSeqs, Ordered, ConnSafe, ReceiverSafe;
    if s.mode.Acking? {
      AckMeansDelivered(cfg, s);
    }
  }

  lemma InvReadAck(cfg: Config, s: State)
    requires SafeConfig(cfg) && Inv(cfg, s) && Enabled(cfg, s, ReadAck)
    ensures Inv(cfg, Apply(cfg, s, ReadAck))
  {
    hide DeliveredSeqs, Ordered, Aligned, ConnSafe, ReceiverSafe, AtHead, Apply, Enabled;
    OrderedStep(cfg, s, ReadAck);
    AlignedStep(cfg, s, ReadAck);
    ReadKeepsConns(cfg, s);
    ReadCommits(cfg, s);
  }

  lemma InvSend(cfg: Config, s: State, a: Action)
    requires SafeConfig(cfg) && Inv(cfg, s) && Enabled(cfg, s, a) && (a.Send? || a.SendFail? || a.Beat?)
    ensures Inv(cfg, Apply(cfg, s, a))
  {
    OrderedStep(cfg, s, a);
    AlignedStep(cfg, s, a);
    if s.connected {
      SentOnSafe(cfg, s, if a.Beat? then Heartbeat else FrameOf(s.wal.log, s.mode.at));
    }
  }

  lemma InvServer(cfg: Config, s: State, a: Action)
    requires Inv(cfg, s) && Enabled(cfg, s, a) && (a.ServerRead? || a.ServerWrite? || a.ReceiverCrash?)
    ensures Inv(cfg, Apply(cfg, s, a))
  {
    hide DeliveredSeqs, Ordered;
    OrderedStep(cfg, s, a);
    AlignedStep(cfg, s, a);
    var t := Apply(cfg, s, a);
    forall n | 0 <= n < |t.conns|
      ensures ConnSafe(cfg, t.wal.log, Fin(t), t.conns[n])
    {
      assert ConnSafe(cfg, s.wal.log, Fin(s), s.conns[n]);
    }
  }

  lemma InvSender(cfg: Config, s: State, a: Action)
    requires SafeConfig(cfg) && Inv(cfg, s) && Enabled(cfg, s, a)
    requires a.Connect? || a.BeginRound? || a.AckLost? || a.RemoveSegments? || a.SaveCheckpoint? || a.SenderCrash?
    ensures Inv(cfg, Apply(cfg, s, a))
  {
    hide DeliveredSeqs, Ordered, ReceiverSafe;
    OrderedStep(cfg, s, a);
    AlignedStep(cfg, s, a);
  }

  lemma InvStep(cfg: Config, s: State, a: Action)
    requires SafeConfig(cfg) && Inv(cfg, s) && Enabled(cfg, s, a)
    ensures Inv(cfg, Apply(cfg, s, a))
  {
    hide Inv, Apply, Enabled;
    match a {
      case Handle(c, i, h) => InvHandle(cfg, s, c, i, h);
      case Append(p) => InvAppend(cfg, s, p);
      case ReadAck => InvReadAck(cfg, s);
      case Send | SendFail(_) | Beat => InvSend(cfg, s, a);
      case ServerRead(_) | ServerWrite(_) | ReceiverCrash => InvServer(cfg, s, a);
      case Connect | BeginRound(_) | AckLost => InvSender(cfg, s, a);
      case RemoveSegments(_, _) | SaveCheckpoint(_, _) | SenderCrash => InvSender(cfg, s, a);
    }
  }

  lemma {:induction false} InvAlong(cfg: Config, run: seq<Action>)
    requires SafeConfig(cfg) && Exec(cfg, run).Some?
    ensures Inv(cfg, Exec(cfg, run).value)
  {
    if run != [] {
      var front := run[..|run| - 1];
      InvAlong(cfg, front);
      InvStep(cfg, Exec(cfg, front).value, run[|run| - 1]);
    }
  }

  /** Every seq up to last_seq, in memory or in the file, and every seq the tracker keeps was
      delivered, so the duplicate branch never acknowledges an undelivered frame. */
  lemma PrefixDelivered(cfg: Config, s: State)
    requires SafeConfig(cfg) && Reachable(cfg, s)
    ensures Delivered(s.wal.log, s.receiver.delivered, s.receiver.lastSeq)
    ensures Delivered(s.wal.log, s.receiver.delivered, s.receiver.persisted)
    ensures Delivered(s.wal.log, s.receiver.delivered, s.receiver.tracker.last)
    ensures forall k | k in s.receiver.tracker.pending ::
              1 <= k <= |s.wal.log| && FrameOf(s.wal.log, k) in s.receiver.delivered
  {
    var run :| Exec(cfg, run) == Some(s);
    InvAlong(cfg, run);
    CoversIsDelivered(s.wal.log, s.receiver.delivered, s.receiver.lastSeq);
    CoversIsDelivered(s.wal.log, s.receiver.delivered, s.receiver.persisted);
    CoversIsDelivered(s.wal.log, s.receiver.delivered, s.receiver.tracker.last);
  }

  /** In a safe configuration every run is at-least-once. */
  lemma SafeConfigDelivers(cfg: Config)
    requires SafeConfig(cfg)
    ensures AtLeastOnce(cfg)
  {
    forall s | Reachable(cfg, s)
      ensures Safe(s)
    {
      var run :| Exec(cfg, run) == Some(s);
      InvAlong(cfg, run);
      CoversIsDelivered(s.wal.log, s.receiver.delivered, s.everCommitted);
    }
  }

  // ---------------------------------------------------------------- a frame without text

  lemma {:induction false} DeliveredHaveText(cfg: Config, run: seq<Action>)
    requires Exec(cfg, run).Some?
    ensures forall f | f in Exec(cfg, run).value.receiver.delivered :: f.Data? && HasText(f.payload)
  {
    hide HasText;
    if run != [] {
      DeliveredHaveText(cfg, run[..|run| - 1]);
    }
  }

  /** In a safe configuration a frame without text is never committed, nor is any frame after it: it stays
      the head of the WAL for good. */
  lemma NoTextIsStuck(cfg: Config, s: State, k: nat)
    requires SafeConfig(cfg) && Reachable(cfg, s) && 1 <= k <= |s.wal.log| && !HasText(s.wal.log[k - 1])
    ensures s.everCommitted < k && s.wal.head < k && s.receiver.lastSeq < k
  {
    var run :| Exec(cfg, run) == Some(s);
    hide HasText;
    DeliveredHaveText(cfg, run);
    InvAlong(cfg, run);
    assert FrameOf(s.wal.log, k) !in s.receiver.delivered;
    PrefixDelivered(cfg, s);
    CoversIsDelivered(s.wal.log, s.receiver.delivered, s.everCommitted);
  }
}
