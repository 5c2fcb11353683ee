/** Where at-least-once delivery fails: one losing run for each condition of `SafeConfig`. */
module DeliveryLimits {
  import opened SeqTracking
  import opened Delivery
  import opened DeliverySafety
  import Q = WalQueue

  // ---------------------------------------------------------------- the effect of single actions

  /** A payload for the losing runs: one byte of text. */
  const TEXT: Payload := [49]

  lemma TextIsText()
    ensures HasText(TEXT)
  {
    assert 49 in TEXT;
  }

  function PutLast(s: State, c: Conn): seq<Conn>
    requires s.conns != []
  {
    s.conns[|s.conns| - 1 := c]
  }

  function Newest(s: State): Conn
    requires s.conns != []
  {
    s.conns[|s.conns| - 1]
  }

  lemma EffectOfSend(cfg: Config, s: State)
    requires s.mode.Sending? && s.connected && s.conns != [] && 1 <= s.mode.at < s.mode.hi && s.mode.at <= |s.wal.log|
    ensures Enabled(cfg, s, Send)
    ensures var m := s.mode;
            Apply(cfg, s, Send)
            == s.(conns := PutLast(s, Newest(s).(sent := Newest(s).sent + [FrameOf(s.wal.log, m.at)])),
                  mode := if m.at + 1 < m.hi then Sending(m.lo, m.hi, m.at + 1) else Acking(m.lo, m.hi, m.lo))
  {
  }

  /** The next ACK byte that the client will read is `a`. */
  ghost predicate AckWaiting(s: State, a: Ack) {
    && s.mode.Acking? && s.connected && s.conns != []
    && Newest(s).read < |Newest(s).acks| && Newest(s).acks[Newest(s).read] == a
  }

  lemma EffectOfNack(cfg: Config, s: State)
    requires AckWaiting(s, Fail) && cfg.window > 1
    ensures Enabled(cfg, s, ReadAck)
    ensures Apply(cfg, s, ReadAck)
            == s.(connected := false, mode := Sending(s.mode.at, s.mode.hi, s.mode.at),
                  conns := PutLast(s, Newest(s).(read := Newest(s).read + 1)))
  {
  }

  lemma EffectOfSuccess(cfg: Config, s: State)
    requires AckWaiting(s, Success)
    ensures Enabled(cfg, s, ReadAck)
    ensures var wal := Q.Committed(s.wal, s.mode.at);
            Apply(cfg, s, ReadAck)
            == s.(wal := wal, everCommitted := if wal.head > s.everCommitted then wal.head else s.everCommitted,
                  mode := if s.mode.at + 1 < s.mode.hi then Acking(s.mode.lo, s.mode.hi, s.mode.at + 1) else Idle,
                  conns := PutLast(s, Newest(s).(read := Newest(s).read + 1)))
  {
  }

  /** A window takes all `n` pending frames. */
  lemma EffectOfBeginRound(cfg: Config, s: State, n: nat)
    requires s.mode.Idle? && s.connected && 1 <= n == |s.wal.log| - s.wal.head
    requires 1 <= cfg.window && n <= cfg.window
    ensures Enabled(cfg, s, BeginRound(false))
    ensures Apply(cfg, s, BeginRound(false)) == s.(mode := Sending(s.wal.head + 1, s.wal.head + 1 + n, s.wal.head + 1))
  {
  }

  // ---------------------------------------------------------------- single actions on reachable states

  lemma DoAppend(cfg: Config, s: State, p: Payload) returns (t: State)
    requires Reachable(cfg, s)
    requires !s.disk.bare
    ensures Reachable(cfg, t) && t == s.(wal := Q.Queue(s.wal.log + [p], s.wal.head, s.wal.saved))
  {
    ReachStep(cfg, s, Append(p));
    t := Apply(cfg, s, Append(p));
  }

  lemma DoConnect(cfg: Config, s: State) returns (t: State)
    requires Reachable(cfg, s) && !s.connected && !s.mode.Beating?
    ensures Reachable(cfg, t) && t == s.(connected := true, conns := s.conns + [Conn([], [], [], 0, true)])
  {
    ReachStep(cfg, s, Connect);
    t := Apply(cfg, s, Connect);
  }

  lemma DoBeginRound(cfg: Config, s: State, n: nat) returns (t: State)
    requires Reachable(cfg, s) && s.mode.Idle? && s.connected && 1 <= n == |s.wal.log| - s.wal.head
    requires 1 <= cfg.window && n <= cfg.window
    ensures Reachable(cfg, t) && t == s.(mode := Sending(s.wal.head + 1, s.wal.head + 1 + n, s.wal.head + 1))
  {
    EffectOfBeginRound(cfg, s, n);
    ReachStep(cfg, s, BeginRound(false));
    t := Apply(cfg, s, BeginRound(false));
  }

  lemma DoSend(cfg: Config, s: State) returns (t: State)
    requires Reachable(cfg, s) && s.mode.Sending? && s.connected && s.conns != []
    requires 1 <= s.mode.at < s.mode.hi && s.mode.at <= |s.wal.log|
    ensures Reachable(cfg, t)
    ensures var m := s.mode;
            t == s.(conns := PutLast(s, Newest(s).(sent := Newest(s).sent + [FrameOf(s.wal.log, m.at)])),
                    mode := if m.at + 1 < m.hi then Sending(m.lo, m.hi, m.at + 1) else Acking(m.lo, m.hi, m.lo))
  {
    EffectOfSend(cfg, s);
    ReachStep(cfg, s, Send);
    t := Apply(cfg, s, Send);
  }

  /** A send that fails outright; go-back-N will resend from the frame that failed. */
  lemma DoSendFail(cfg: Config, s: State) returns (t: State)
    requires Reachable(cfg, s) && s.mode.Sending? && 1 <= s.mode.at < s.mode.hi && s.mode.at <= |s.wal.log|
    requires cfg.window > 1 && (s.mode.at > s.mode.lo ==> cfg.lateSendFailures)
    ensures Reachable(cfg, t) && t == s.(connected := false, mode := Sending(s.mode.at, s.mode.hi, s.mode.at))
  {
    ReachStep(cfg, s, SendFail(false));
    t := Apply(cfg, s, SendFail(false));
  }

  lemma DoReadNack(cfg: Config, s: State) returns (t: State)
    requires Reachable(cfg, s) && AckWaiting(s, Fail) && cfg.window > 1
    ensures Reachable(cfg, t)
    ensures t == s.(connected := false, mode := Sending(s.mode.at, s.mode.hi, s.mode.at),
                    conns := PutLast(s, Newest(s).(read := Newest(s).read + 1)))
  {
    EffectOfNack(cfg, s);
    ReachStep(cfg, s, ReadAck);
    t := Apply(cfg, s, ReadAck);
  }

  lemma DoReadSuccess(cfg: Config, s: State) returns (t: State)
    requires Reachable(cfg, s) && AckWaiting(s, Success)
    ensures Reachable(cfg, t)
    ensures var wal := Q.Committed(s.wal, s.mode.at);
            t == s.(wal := wal, everCommitted := if wal.head > s.everCommitted then wal.head else s.everCommitted,
                    mode := if s.mode.at + 1 < s.mode.hi then Acking(s.mode.lo, s.mode.hi, s.mode.at + 1) else Idle,
                    conns := PutLast(s, Newest(s).(read := Newest(s).read + 1)))
  {
    EffectOfSuccess(cfg, s);
    ReachStep(cfg, s, ReadAck);
    t := Apply(cfg, s, ReadAck);
  }

  lemma DoServerRead(cfg: Config, s: State, c: nat) returns (t: State)
    requires Reachable(cfg, s) && c < |s.conns| && s.conns[c].alive
    requires |s.conns[c].runs| < |s.conns[c].sent| && |s.conns[c].runs| < |s.conns[c].acks| + cfg.maxInflight
    ensures Reachable(cfg, t)
    ensures t == s.(conns := s.conns[c := s.conns[c].(runs := s.conns[c].runs + [Spawned])])
  {
    ReachStep(cfg, s, ServerRead(c));
    t := Apply(cfg, s, ServerRead(c));
  }

  lemma DoServerWrite(cfg: Config, s: State, c: nat, a: Ack) returns (t: State)
    requires Reachable(cfg, s) && c < |s.conns| && s.conns[c].alive
    requires |s.conns[c].acks| < |s.conns[c].runs| && s.conns[c].runs[|s.conns[c].acks|] == Finished(a)
    ensures Reachable(cfg, t)
    ensures t == s.(conns := s.conns[c := s.conns[c].(acks := s.conns[c].acks + [a])])
  {
    ReachStep(cfg, s, ServerWrite(c));
    t := Apply(cfg, s, ServerWrite(c));
  }

  /** `s` with handler `i` of connection `c` at `pc` and the receiver at `r`. */
  function With(s: State, c: nat, i: nat, r: Receiver, pc: Pc): State
    requires c < |s.conns| && i < |s.conns[c].runs|
  {
    s.(receiver := r, conns := s.conns[c := s.conns[c].(runs := s.conns[c].runs[i := pc])])
  }

  lemma WithItself(s: State, c: nat, i: nat)
    requires c < |s.conns| && i < |s.conns[c].runs|
    ensures With(s, c, i, s.receiver, s.conns[c].runs[i]) == s
  {
    var runs := s.conns[c].runs;
    assert runs[i := runs[i]] == runs;
    assert s.conns[c := s.conns[c].(runs := runs)] == s.conns;
  }

  ghost predicate Handling(cfg: Config, s: State, c: nat, i: nat, f: Frame, zero: bool, r: Receiver, pc: Pc) {
    && c < |s.conns| && s.conns[c].alive && i < |s.conns[c].runs| && i < |s.conns[c].sent|
    && s.conns[c].sent[i] == f && IndexZero(cfg, s.conns[c].sent, i) == zero
    && Reachable(cfg, With(s, c, i, r, pc))
  }

  lemma DoHandle(cfg: Config, s: State, c: nat, i: nat, f: Frame, zero: bool, r: Receiver, pc: Pc, h: HandlerStep)
    returns (r': Receiver, pc': Pc)
    requires Handling(cfg, s, c, i, f, zero, r, pc) && CanStep(cfg, r, f, pc, h)
    ensures (r', pc') == Step(cfg, r, f, zero, pc, h)
    ensures Handling(cfg, s, c, i, f, zero, r', pc')
  {
    var t := With(s, c, i, r, pc);
    ReachStep(cfg, t, Handle(c, i, h));
    r', pc' := Step(cfg, r, f, zero, pc, h).0, Step(cfg, r, f, zero, pc, h).1;
    assert s.conns[c].runs[i := pc][i := pc'] == s.conns[c].runs[i := pc'];
    assert t.conns[c := t.conns[c].(runs := t.conns[c].runs[i := pc'])] == With(s, c, i, r', pc').conns;
  }

  // ---------------------------------------------------------------- whole handlers

  /** A handler that closes no gap and fails for a transient reason. */
  lemma HandlerFails(cfg: Config, s: State, c: nat, i: nat, f: Frame, zero: bool, r: Receiver)
    requires Handling(cfg, s, c, i, f, zero, r, Spawned) && f.Data? && r.lastSeq < f.seqNo && r.inflight == map[]
    requires f.seqNo == r.lastSeq + 1 || f.seqNo > r.lastSeq + SEQ_JUMP_LIMIT
    requires HasText(f.payload)
    ensures Handling(cfg, s, c, i, f, zero, r, Finished(Fail))
  {
    var q, pc := DoHandle(cfg, s, c, i, f, zero, r, Spawned, CheckDuplicate);
    q, pc := DoHandle(cfg, s, c, i, f, zero, q, pc, Register);
    q, pc := DoHandle(cfg, s, c, i, f, zero, q, pc, InspectGap);
    q, pc := DoHandle(cfg, s, c, i, f, zero, q, pc, Write(Transient(false)));
    q, pc := DoHandle(cfg, s, c, i, f, zero, q, pc, Release);
    assert q.inflight == map[];
  }

  lemma HandlerSkipsDuplicate(cfg: Config, s: State, c: nat, i: nat, f: Frame, zero: bool, r: Receiver)
    requires Handling(cfg, s, c, i, f, zero, r, Spawned) && f.Data? && f.seqNo <= r.lastSeq
    ensures Handling(cfg, s, c, i, f, zero, r, Finished(Success))
  {
    var _, _ := DoHandle(cfg, s, c, i, f, zero, r, Spawned, CheckDuplicate);
  }

  /** A handler that stands at frame index 0 closes the gap below its seq. */
  lemma HandlerClosesGap(cfg: Config, s: State, c: nat, i: nat, f: Frame, r: Receiver) returns (q: Receiver)
    requires Handling(cfg, s, c, i, f, true, r, Spawned) && f.Data? && r.inflight == map[]
    requires r.lastSeq == r.tracker.last && r.tracker.pending == {}
    requires r.lastSeq + 1 < f.seqNo <= r.lastSeq + SEQ_JUMP_LIMIT
    ensures Handling(cfg, s, c, i, f, true, q, Ready)
    ensures q == r.(lastSeq := f.seqNo - 1, tracker := Tracker(f.seqNo - 1, {}), inflight := map[f.seqNo := 1])
  {
    var pc;
    q, pc := DoHandle(cfg, s, c, i, f, true, r, Spawned, CheckDuplicate);
    q, pc := DoHandle(cfg, s, c, i, f, true, q, pc, Register);
    q, pc := DoHandle(cfg, s, c, i, f, true, q, pc, InspectGap);
    q, pc := DoHandle(cfg, s, c, i, f, true, q, pc, ReadLast);
    q, pc := DoHandle(cfg, s, c, i, f, true, q, pc, CloseGap);
    q, pc := DoHandle(cfg, s, c, i, f, true, q, pc, LoadTracker);
    q, pc := DoHandle(cfg, s, c, i, f, true, q, pc, StoreLast(false));
    var last := f.seqNo - 1;
    assert GapClosed(r.tracker, last).pending == {};
  }

  /** A handler that stands at Ready writes its frame and raises last_seq to it. */
  lemma HandlerStores(cfg: Config, s: State, c: nat, i: nat, f: Frame, zero: bool, r: Receiver) returns (q: Receiver)
    requires Handling(cfg, s, c, i, f, zero, r, Ready) && f.Data? && r.inflight == map[f.seqNo := 1]
    requires HasText(f.payload)
    requires r.lastSeq == r.tracker.last < f.seqNo && r.tracker.pending == {}
    requires f.seqNo == r.lastSeq + 1 || (f.seqNo > r.lastSeq + SEQ_JUMP_LIMIT && cfg.seqJumps)
    ensures Handling(cfg, s, c, i, f, zero, q, Finished(Success))
    ensures q == r.(lastSeq := f.seqNo, tracker := Tracker(f.seqNo, {}), inflight := map[],
                    delivered := r.delivered + {f})
  {
    var pc;
    q, pc := DoHandle(cfg, s, c, i, f, zero, r, Ready, Write(Stored));
    assert Drain(f.seqNo - 1, {} + {f.seqNo}) == Drain(f.seqNo, {}) == Tracker(f.seqNo, {}) by {
      assert {} + {f.seqNo} - {f.seqNo} == {};
    }
    q, pc := DoHandle(cfg, s, c, i, f, zero, q, pc, MarkDone);
    assert q.tracker == Tracker(f.seqNo, {});
    q, pc := DoHandle(cfg, s, c, i, f, zero, q, pc, LoadTracker);
    q, pc := DoHandle(cfg, s, c, i, f, zero, q, pc, StoreLast(false));
    q, pc := DoHandle(cfg, s, c, i, f, zero, q, pc, Release);
    assert q.inflight == map[];
  }

  /** A handler whose seq follows last_seq directly, or jumps over the limit, reaches Ready. */
  lemma HandlerGetsReady(cfg: Config, s: State, c: nat, i: nat, f: Frame, zero: bool, r: Receiver) returns (q: Receiver)
    requires Handling(cfg, s, c, i, f, zero, r, Spawned) && f.Data? && r.lastSeq < f.seqNo && r.inflight == map[]
    requires f.seqNo == r.lastSeq + 1 || f.seqNo > r.lastSeq + SEQ_JUMP_LIMIT
    ensures Handling(cfg, s, c, i, f, zero, q, Ready)
    ensures q == r.(inflight := map[f.seqNo := 1])
  {
    var pc;
    q, pc := DoHandle(cfg, s, c, i, f, zero, r, Spawned, CheckDuplicate);
    q, pc := DoHandle(cfg, s, c, i, f, zero, q, pc, Register);
    q, pc := DoHandle(cfg, s, c, i, f, zero, q, pc, InspectGap);
  }

  // ---------------------------------------------------------------- the situations that lose a frame

  /** Connected on the newest connection `c` with frames `h + 1` and `h + 2` sent as one window, all
      `h` earlier frames committed, nothing in flight, and frame `h + 1` not delivered. */
  ghost predicate TwoInFlight(cfg: Config, s: State, h: nat) {
    && Reachable(cfg, s) && cfg.window > 1 && cfg.maxInflight >= 1
    && s.connected && s.conns != [] && s.mode == Acking(h + 1, h + 3, h + 1)
    && s.wal.head == h && |s.wal.log| == h + 2 && s.everCommitted == h && s.wal.log[h..] == [TEXT, TEXT]
    && s.receiver.inflight == map[] && s.receiver.tracker == Tracker(s.receiver.lastSeq, {})
    && s.receiver.lastSeq <= h && FrameOf(s.wal.log, h + 1) !in s.receiver.delivered
    && s.conns[|s.conns| - 1] == Conn([FrameOf(s.wal.log, h + 1), FrameOf(s.wal.log, h + 2)], [], [], 0, true)
  }

  /** The first of two frames in flight fails, and the sender has not read its NACK yet. */
  lemma FirstFails(cfg: Config, s0: State, h: nat) returns (s: State)
    requires TwoInFlight(cfg, s0, h)
    requires h == s0.receiver.lastSeq || h >= s0.receiver.lastSeq + SEQ_JUMP_LIMIT
    ensures Reachable(cfg, s)
    ensures var n := |s0.conns| - 1;
            s == s0.(conns := s0.conns[n := s0.conns[n].(runs := [Finished(Fail)], acks := [Fail])])
  {
    var n := |s0.conns| - 1;
    s := DoServerRead(cfg, s0, n);
    var f, zero := s.conns[n].sent[0], IndexZero(cfg, s.conns[n].sent, 0);
    WithItself(s, n, 0);
    TextIsText();
    assert s0.wal.log[h] == s0.wal.log[h..][0];
    HandlerFails(cfg, s, n, 0, f, zero, s.receiver);
    s := DoServerWrite(cfg, With(s, n, 0, s.receiver, Finished(Fail)), n, Fail);
    assert s.conns[n] == s0.conns[n].(runs := [Finished(Fail)], acks := [Fail]);
    assert s.conns == s0.conns[n := s.conns[n]];
  }

  /** Once last_seq covers the undelivered head, resending it is acknowledged as a duplicate and the
      WAL commits it. */
  lemma HeadIsSwallowed(cfg: Config, s0: State, h: nat)
    requires Reachable(cfg, s0) && cfg.maxInflight >= 1
    requires s0.connected && s0.mode.Acking? && s0.mode.at == h + 1 && s0.conns != []
    requires s0.wal.head == h && h + 1 <= |s0.wal.log| && s0.everCommitted == h
    requires s0.receiver.lastSeq >= h + 1 && FrameOf(s0.wal.log, h + 1) !in s0.receiver.delivered
    requires var c := s0.conns[|s0.conns| - 1];
             c.alive && c.read == |c.acks| == |c.runs| < |c.sent| && c.sent[c.read] == FrameOf(s0.wal.log, h + 1)
    ensures !AtLeastOnce(cfg)
  {
    var n := |s0.conns| - 1;
    var i := |s0.conns[n].runs|;
    var s := DoServerRead(cfg, s0, n);
    var f, zero := s.conns[n].sent[i], IndexZero(cfg, s.conns[n].sent, i);
    WithItself(s, n, i);
    HandlerSkipsDuplicate(cfg, s, n, i, f, zero, s.receiver);
    s := DoServerWrite(cfg, With(s, n, i, s.receiver, Finished(Success)), n, Success);
    s := DoReadSuccess(cfg, s);
    assert s.everCommitted == h + 1 && !Delivered(s.wal.log, s.receiver.delivered, h + 1);
  }

  /** After a NACK for the head of a two-frame window, the window is resent on a new connection. */
  lemma WindowResent(cfg: Config, s0: State, h: nat)
    requires Reachable(cfg, s0) && cfg.window > 1 && cfg.maxInflight >= 1
    requires s0.connected && s0.mode == Acking(h + 1, h + 3, h + 1) && s0.conns != []
    requires s0.wal.head == h && |s0.wal.log| == h + 2 && s0.everCommitted == h
    requires s0.receiver.lastSeq >= h + 1 && FrameOf(s0.wal.log, h + 1) !in s0.receiver.delivered
    requires var c := s0.conns[|s0.conns| - 1]; c.read == 0 && |c.acks| > 0 && c.acks[0] == Fail
    ensures !AtLeastOnce(cfg)
  {
    var s := DoReadNack(cfg, s0);
    s := DoConnect(cfg, s);
    s := SendTwo(cfg, s, h);
    HeadIsSwallowed(cfg, s, h);
  }

  lemma AppendTwo(cfg: Config, s0: State) returns (s: State)
    requires Reachable(cfg, s0) && !s0.disk.bare
    ensures Reachable(cfg, s)
    ensures s == s0.(wal := Q.Queue(s0.wal.log + [TEXT, TEXT], s0.wal.head, s0.wal.saved))
  {
    s := DoAppend(cfg, s0, TEXT);
    s := DoAppend(cfg, s, TEXT);
    assert s0.wal.log + [TEXT] + [TEXT] == s0.wal.log + [TEXT, TEXT];
  }

  /** Sends a whole two-frame window on the newest connection. */
  lemma SendTwo(cfg: Config, s0: State, h: nat) returns (s: State)
    requires Reachable(cfg, s0) && s0.mode == Sending(h + 1, h + 3, h + 1) && s0.connected && s0.conns != []
    requires h + 2 <= |s0.wal.log|
    ensures Reachable(cfg, s)
    ensures var two := [FrameOf(s0.wal.log, h + 1), FrameOf(s0.wal.log, h + 2)];
            s == s0.(mode := Acking(h + 1, h + 3, h + 1),
                     conns := PutLast(s0, Newest(s0).(sent := Newest(s0).sent + two)))
  {
    hide Reachable, Enabled, Apply, FrameOf;
    var f, g, c := FrameOf(s0.wal.log, h + 1), FrameOf(s0.wal.log, h + 2), Newest(s0);
    var s1 := DoSend(cfg, s0);
    assert s1.mode == Sending(h + 1, h + 3, h + 2) && Newest(s1) == c.(sent := c.sent + [f]);
    s := DoSend(cfg, s1);
    assert c.sent + [f] + [g] == c.sent + [f, g];
    assert PutLast(s1, c.(sent := c.sent + [f, g])) == PutLast(s0, c.(sent := c.sent + [f, g]));
  }

  lemma TwoFramesSent(cfg: Config) returns (s: State)
    requires cfg.window > 1 && cfg.maxInflight >= 1
    ensures TwoInFlight(cfg, s, 0) && |s.conns| == 1 && s.receiver == INITIAL.receiver
  {
    ReachInit(cfg);
    s := AppendTwo(cfg, INITIAL);
    s := DoConnect(cfg, s);
    s := DoBeginRound(cfg, s, 2);
    s := SendTwo(cfg, s, 0);
  }

  /** Zstd frames all have frame index 0, so the second frame of a window may close the gap over the
      first one, which failed and is going to be resent. */
  lemma ZstdLoses(cfg: Config)
    requires cfg.window > 1 && cfg.maxInflight >= 1 && cfg.zstd
    ensures !AtLeastOnce(cfg)
  {
    var s := TwoFramesSent(cfg);
    s := FirstFails(cfg, s, 0);
    s := DoServerRead(cfg, s, 0);
    var f := s.conns[0].sent[1];
    WithItself(s, 0, 1);
    var q := HandlerClosesGap(cfg, s, 0, 1, f, s.receiver);
    WindowResent(cfg, With(s, 0, 1, q, Ready), 0);
  }

  /** The first frame of a two-frame window is lost with its connection, and the next connection
      opens with the second frame. */
  lemma SecondFrameOpens(cfg: Config) returns (s: State)
    requires cfg.window > 1 && cfg.maxInflight >= 1 && cfg.lateSendFailures
    ensures Reachable(cfg, s)
    ensures |s.conns| == 2 && s.conns[1] == Conn([Data(2, TEXT)], [], [], 0, true)
    ensures s.wal == Q.Queue([TEXT, TEXT], 0, 0) && s.everCommitted == 0 && s.mode == Acking(2, 3, 2) && s.connected
    ensures s.receiver == INITIAL.receiver
  {
    ReachInit(cfg);
    s := AppendTwo(cfg, INITIAL);
    s := DoConnect(cfg, s);
    s := DoBeginRound(cfg, s, 2);
    s := DoSend(cfg, s);
    s := DoSendFail(cfg, s);
    s := DoConnect(cfg, s);
    s := DoSend(cfg, s);
  }

  /** A send that fails on the second frame of a window reopens the connection on that frame; its
      handler closes the gap over the first frame, whose bytes were lost with the old connection. */
  lemma LateSendFailureLoses(cfg: Config)
    requires cfg.window > 1 && cfg.maxInflight >= 1 && cfg.lateSendFailures
    ensures !AtLeastOnce(cfg)
  {
    var s := SecondFrameOpens(cfg);
    s := DoServerRead(cfg, s, 1);
    var f := s.conns[1].sent[0];
    WithItself(s, 1, 0);
    var q := HandlerClosesGap(cfg, s, 1, 0, f, s.receiver);
    TextIsText();
    q := HandlerStores(cfg, s, 1, 0, f, true, q);
    s := DoServerWrite(cfg, With(s, 1, 0, q, Finished(Success)), 1, Success);
    s := DoReadSuccess(cfg, s);
    s := DoBeginRound(cfg, s, 2);
    s := SendTwo(cfg, s, 0);
    HeadIsSwallowed(cfg, s, 0);
  }

  // ---------------------------------------------------------------- a jump over a frame in flight

  /** `n` frames delivered and committed over one connection, nothing in flight, and last_seq never
      written to its file. */
  ghost predicate Quiet(cfg: Config, s: State, n: nat) {
    && Reachable(cfg, s)
    && s.connected && s.mode.Idle? && |s.conns| == 1
    && s.wal.head == |s.wal.log| == n && s.everCommitted == n
    && s.receiver.lastSeq == n && s.receiver.tracker == Tracker(n, {}) && s.receiver.inflight == map[]
    && s.receiver.persisted == 0 && s.disk == INITIAL.disk
    && (forall f | f in s.receiver.delivered :: f.Data? && f.seqNo <= n && f.payload == TEXT)
    && var c := s.conns[0]; c.alive && c.read == |c.acks| == |c.runs| == |c.sent|
  }

  lemma OneMore(cfg: Config, s0: State, n: nat) returns (s: State)
    requires Quiet(cfg, s0, n) && cfg.window >= 1 && cfg.maxInflight >= 1
    ensures Quiet(cfg, s, n + 1)
  {
    s := DoAppend(cfg, s0, TEXT);
    s := DoBeginRound(cfg, s, 1);
    s := DoSend(cfg, s);
    s := DoServerRead(cfg, s, 0);
    var i := |s0.conns[0].runs|;
    var f, zero := s.conns[0].sent[i], IndexZero(cfg, s.conns[0].sent, i);
    WithItself(s, 0, i);
    var q := HandlerGetsReady(cfg, s, 0, i, f, zero, s.receiver);
    TextIsText();
    q := HandlerStores(cfg, s, 0, i, f, zero, q);
    s := DoServerWrite(cfg, With(s, 0, i, q, Finished(Success)), 0, Success);
    s := DoReadSuccess(cfg, s);
  }

  lemma {:induction false} ManyFrames(cfg: Config, n: nat) returns (s: State)
    requires cfg.window >= 1 && cfg.maxInflight >= 1
    ensures Quiet(cfg, s, n)
  {
    if n == 0 {
      ReachInit(cfg);
      s := DoConnect(cfg, INITIAL);
    } else {
      s := ManyFrames(cfg, n - 1);
      s := OneMore(cfg, s, n - 1);
    }
  }

  /** The receiver dies and comes back with last_seq 0. */
  lemma ReceiverRestarts(cfg: Config, n: nat) returns (s: State)
    requires cfg.window > 1 && cfg.maxInflight >= 1
    ensures Reachable(cfg, s)
    ensures s.connected && s.mode.Idle? && |s.conns| == 1 && !s.disk.bare
    ensures s.wal.head == |s.wal.log| == n && s.everCommitted == n
    ensures s.receiver.lastSeq == 0 && s.receiver.tracker == Tracker(0, {}) && s.receiver.inflight == map[]
    ensures forall f | f in s.receiver.delivered :: f.Data? && f.seqNo <= n
  {
    s := ManyFrames(cfg, n);
    ReachStep(cfg, s, ReceiverCrash);
    s := Apply(cfg, s, ReceiverCrash);
  }

  /** After such a restart both ends reconnect on a two-frame window. */
  lemma RestartedFarBehind(cfg: Config, n: nat) returns (s: State)
    requires cfg.window > 1 && cfg.maxInflight >= 1
    ensures TwoInFlight(cfg, s, n) && s.receiver.lastSeq == 0
  {
    s := ReceiverRestarts(cfg, n);
    s := AppendTwo(cfg, s);
    s := DoBeginRound(cfg, s, 2);
    s := DoSendFail(cfg, s);
    s := DoConnect(cfg, s);
    s := SendTwo(cfg, s, n);
  }

  /** A frame that completes far above last_seq makes the tracker jump over its predecessor, which
      failed and is going to be resent. */
  lemma JumpLoses(cfg: Config)
    requires cfg.window > 1 && cfg.maxInflight >= 1 && cfg.seqJumps
    ensures !AtLeastOnce(cfg)
  {
    var h := SEQ_JUMP_LIMIT;
    var s := RestartedFarBehind(cfg, h);
    var n := |s.conns| - 1;
    s := FirstFails(cfg, s, h);
    s := DoServerRead(cfg, s, n);
    var f, zero := s.conns[n].sent[1], IndexZero(cfg, s.conns[n].sent, 1);
    WithItself(s, n, 1);
    var q := HandlerGetsReady(cfg, s, n, 1, f, zero, s.receiver);
    TextIsText();
    assert s.wal.log[h + 1] == s.wal.log[h..][1];
    q := HandlerStores(cfg, s, n, 1, f, zero, q);
    WindowResent(cfg, With(s, n, 1, q, Finished(Success)), h);
  }

  // ---------------------------------------------------------------- a crash inside a commit

  lemma DoRemoveAll(cfg: Config, s: State) returns (t: State)
    requires Reachable(cfg, s) && s.wal.head == |s.wal.log|
    ensures Reachable(cfg, t)
    ensures t == s.(wal := Q.Queue(s.wal.log, s.wal.head, |s.wal.log|), disk := s.disk.(bare := true))
  {
    ReachStep(cfg, s, RemoveSegments(|s.wal.log|, true));
    t := Apply(cfg, s, RemoveSegments(|s.wal.log|, true));
  }

  /** The sender dies with no frame left on its disk and a checkpoint from before the first one. */
  lemma DoCrashEmpty(cfg: Config, s: State) returns (t: State)
    requires Reachable(cfg, s) && cfg.commitCrashes && s.wal.saved == |s.wal.log| > 0 && s.disk.next == 1
    ensures Reachable(cfg, t)
    ensures t == s.(wal := Q.Queue([], 0, 0), disk := s.disk.(bare := false), everCommitted := 0, mode := Idle,
                    connected := false)
  {
    ReachStep(cfg, s, SenderCrash);
    t := Apply(cfg, s, SenderCrash);
    assert s.wal.log[..0] == [];
  }

  /** The only frame ever appended is delivered and committed, its segment removed, and the sender dies
      before the checkpoint is saved. */
  lemma CommittedThenCrashed(cfg: Config) returns (s: State)
    requires cfg.window >= 1 && cfg.maxInflight >= 1 && cfg.commitCrashes
    ensures Reachable(cfg, s)
    ensures s.wal == Q.Queue([], 0, 0) && !s.disk.bare && s.everCommitted == 0 && s.mode.Idle? && !s.connected
    ensures s.receiver.lastSeq == 1 && forall f | f in s.receiver.delivered :: f.Data? && f.payload == TEXT
  {
    hide Reachable;
    s := ManyFrames(cfg, 1);
    s := DoRemoveAll(cfg, s);
    s := DoCrashEmpty(cfg, s);
  }

  /** The next frame gets the seq of the committed one, so the receiver takes it for a duplicate and the
      WAL commits it undelivered, whatever the window. */
  lemma CommitCrashLoses(cfg: Config)
    requires cfg.window >= 1 && cfg.maxInflight >= 1 && cfg.commitCrashes
    ensures !AtLeastOnce(cfg)
  {
    var other: Payload := [50];
    var s := CommittedThenCrashed(cfg);
    s := DoAppend(cfg, s, other);
    s := DoConnect(cfg, s);
    s := DoBeginRound(cfg, s, 1);
    s := DoSend(cfg, s);
    assert FrameOf(s.wal.log, 1) == Data(1, other) && TEXT[0] != other[0];
    HeadIsSwallowed(cfg, s, 0);
  }

  /** At-least-once delivery holds exactly if no crash hits a commit where the WAL cannot recover, and for
      stop-and-wait, or for go-back-N with gzip frames on runs where no send fails inside a window and no
      completed seq makes the tracker jump. */
  lemma AtLeastOnceIff(cfg: Config)
    requires cfg.window >= 1 && cfg.maxInflight >= 1
    ensures AtLeastOnce(cfg)
            <==> && !cfg.commitCrashes
                 && (cfg.window == 1 || (!cfg.zstd && !cfg.lateSendFailures && !cfg.seqJumps))
  {
    if SafeConfig(cfg) {
      SafeConfigDelivers(cfg);
    } else if cfg.commitCrashes {
      CommitCrashLoses(cfg);
    } else if cfg.zstd {
      ZstdLoses(cfg);
    } else if cfg.lateSendFailures {
      LateSendFailureLoses(cfg);
    } else {
      JumpLoses(cfg);
    }
  }
}
