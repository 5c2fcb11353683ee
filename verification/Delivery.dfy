/** The delivery protocol as a transition system: sender loop, connections, server read and ACK
    loops, one handler per frame, receiver state, and crashes of either side.
    A handler advances by one atomic operation at a time, so every interleaving is a run. */
module Delivery {
  import opened Bytes
  import opened SeqTracking
  import Q = WalQueue

  /** The text of a frame before compression. */
  type Payload = seq<Byte>

  /** Some byte is neither a space nor a control char that counts as one. */
  predicate HasText(text: Payload) {
    exists b | b in text :: b != 32 && !(9 <= b <= 13)
  }

  /** `zstd`, `window` and `maxInflight` are configuration; the others say which events a run may
      contain: a send that fails after the first frame of its window, a completed seq that makes the
      tracker jump, and a crash inside a commit, between the removal of a segment and the saving of the
      checkpoint, that a reopened WAL cannot recover from. */
  datatype Config = Config(
    window: nat, maxInflight: nat, zstd: bool, lateSendFailures: bool, seqJumps: bool, commitCrashes: bool)

  datatype Frame = Data(seqNo: nat, payload: Payload) | Heartbeat
  datatype Ack = Success | Fail

  /** Why `seqOrd.load` and `advanceSeq` are being run. */
  datatype Purpose = ForGap | ForDone

  /** Where one HandleFrame call stands. */
  datatype Pc =
    | Spawned
    | Fresh                               // not a duplicate
    | Registered                          // counted in inflightSeq
    | Closing                             // first frame, seq > last_seq + 1
    | Scanning(seen: nat)                 // inside tryCloseGap, last_seq read as `seen`
    | Ready                               // about to decompress and write
    | Written                             // in the target or the DLQ
    | Moved(why: Purpose)                 // the tracker moved, last_seq not yet
    | Storing(value: nat, why: Purpose)   // about to raise last_seq to `value`
    | Releasing(ack: Ack)
    | Finished(ack: Ack)

  datatype WriteOutcome = Stored | Transient(landed: bool) | Poison(isolated: bool)

  datatype HandlerStep =
    | CheckDuplicate | Register | InspectGap | ReadLast | CloseGap | LoadTracker | StoreLast(persist: bool)
    | Reject | Write(outcome: WriteOutcome) | MarkDone | Release

  datatype Receiver = Receiver(
    lastSeq: nat, tracker: Tracker, inflight: map<nat, nat>, persisted: nat, delivered: set<Frame>)

  /** `sent` and `read` are the client's end, `runs` and `acks` the server's; `alive` is lost when
      the receiver process dies. */
  datatype Conn = Conn(sent: seq<Frame>, runs: seq<Pc>, acks: seq<Ack>, read: nat, alive: bool)

  /** The window is the seqs `lo..hi - 1`; `at` is the next one to send or to read the ACK of. */
  datatype Mode = Idle | Beating | Sending(lo: nat, hi: nat, at: nat) | Acking(lo: nat, hi: nat, at: nat)

  /** What a WAL directory says besides the frames it holds: the next seq in the saved checkpoint, whether
      that checkpoint skips bytes of the oldest segment, and whether there is no segment file. */
  datatype Disk = Disk(next: nat, skips: bool, bare: bool)

  /** The client is connected through the newest connection or not at all. */
  datatype State = State(
    wal: Q.Queue<Payload>, disk: Disk, everCommitted: nat, mode: Mode, connected: bool, conns: seq<Conn>,
    receiver: Receiver)

  datatype Action =
    | Append(payload: Payload) | Connect | BeginRound(single: bool) | Send | SendFail(arrived: bool)
    | ReadAck | AckLost | Beat | SenderCrash
    | RemoveSegments(upTo: nat, bare: bool) | SaveCheckpoint(upTo: nat, skips: bool)
    | ServerRead(c: nat) | ServerWrite(c: nat) | Handle(c: nat, i: nat, step: HandlerStep) | ReceiverCrash

  const INITIAL :=
    State(Q.Queue([], 0, 0), Disk(1, false, false), 0, Idle, false, [], Receiver(0, Tracker(0, {}), map[], 0, {}))

  // ---------------------------------------------------------------- receiver

  function AddInflight(m: map<nat, nat>, s: nat): map<nat, nat> {
    m[s := (if s in m then m[s] else 0) + 1]
  }

  function RemoveInflight(m: map<nat, nat>, s: nat): map<nat, nat> {
    if s !in m || m[s] <= 1 then m - {s} else m[s := m[s] - 1]
  }

  /** The frame index handed to the handler is 0: only gzip data frames are counted, so it is 0 for
      every zstd frame and for the first data frame of a connection. */
  predicate IndexZero(cfg: Config, sent: seq<Frame>, i: nat)
    requires i < |sent|
  {
    cfg.zstd || forall j | 0 <= j < i :: sent[j].Heartbeat?
  }

  predicate GapInflight(m: map<nat, nat>, seen: nat, seqNo: nat) {
    exists s: nat | seen < s < seqNo :: s in m
  }

  predicate CanStep(cfg: Config, r: Receiver, f: Frame, pc: Pc, h: HandlerStep) {
    match h
    case CheckDuplicate => pc.Spawned?
    case Register => pc.Fresh?
    case InspectGap => pc.Registered?
    case ReadLast => pc.Closing?
    case CloseGap => pc.Scanning? && f.Data? && pc.seen < f.seqNo
    case LoadTracker => pc.Moved?
    case StoreLast(_) => pc.Storing?
    case Reject => pc.Spawned? || pc.Ready?
    case Write(_) => pc.Ready? && (f.Data? ==> HasText(f.payload))
    case MarkDone => pc.Written? && f.Data? && (f.seqNo > r.tracker.last + SEQ_JUMP_LIMIT ==> cfg.seqJumps)
    case Release => pc.Releasing?
  }

  function Resume(why: Purpose): Pc {
    match why case ForGap => Ready case ForDone => Releasing(Success)
  }

  /** One atomic operation of HandleFrame. `zero` says whether the frame index is 0. */
  function Step(cfg: Config, r: Receiver, f: Frame, zero: bool, pc: Pc, h: HandlerStep): (Receiver, Pc)
    requires CanStep(cfg, r, f, pc, h)
  {
    if f.Heartbeat? then (r, Finished(if h.Reject? then Fail else Success)) else
    match h
    case CheckDuplicate => (r, if f.seqNo <= r.lastSeq then Finished(Success) else Fresh)
    case Register => (r.(inflight := AddInflight(r.inflight, f.seqNo)), Registered)
    case InspectGap =>
      (r, if r.lastSeq + 1 < f.seqNo <= r.lastSeq + SEQ_JUMP_LIMIT && zero then Closing else Ready)
    case ReadLast => (r, if f.seqNo <= r.lastSeq + 1 then Ready else Scanning(r.lastSeq))
    case CloseGap =>
      if GapInflight(r.inflight, pc.seen, f.seqNo) then (r, Ready)
      else (r.(tracker := GapClosed(r.tracker, f.seqNo - 1)), Moved(ForGap))
    case LoadTracker => (r, Storing(r.tracker.last, pc.why))
    case StoreLast(persist) =>
      (r.(lastSeq := if pc.value > r.lastSeq then pc.value else r.lastSeq,
          persisted := if persist then pc.value else r.persisted), Resume(pc.why))
    case Reject => (r, if pc.Spawned? then Finished(Fail) else Releasing(Fail))
    case Write(Stored) => (r.(delivered := r.delivered + {f}), Written)
    case Write(Transient(landed)) =>
      (if landed then r.(delivered := r.delivered + {f}) else r, Releasing(Fail))
    case Write(Poison(isolated)) =>
      if isolated then (r.(delivered := r.delivered + {f}), Written) else (r, Releasing(Fail))
    case MarkDone =>
      var t := Completed(r.tracker, f.seqNo);
      (r.(tracker := t), if t.last > r.tracker.last then Moved(ForDone) else Releasing(Success))
    case Release => (r.(inflight := RemoveInflight(r.inflight, f.seqNo)), Finished(pc.ack))
  }

  // ---------------------------------------------------------------- whole system

  /** A WAL that is reopened now continues its log: the checkpoint does not skip bytes of a segment that is
      gone, and the last seq is known from a frame or the checkpoint. */
  predicate Recoverable(s: State) {
    (!s.disk.bare || !s.disk.skips) && (s.wal.saved < |s.wal.log| || s.disk.next == |s.wal.log| + 1)
  }

  predicate Enabled(cfg: Config, s: State, a: Action) {
    match a
    case Append(_) => true
    case Connect => !s.connected && !s.mode.Beating?
    case BeginRound(_) => s.mode.Idle? && s.connected && s.wal.head < |s.wal.log|
    case Send =>
      && s.mode.Sending? && s.connected && s.conns != []
      && 1 <= s.mode.at < s.mode.hi && s.mode.at <= |s.wal.log|
    case SendFail(_) =>
      s.mode.Sending? && 1 <= s.mode.at < s.mode.hi && s.mode.at <= |s.wal.log| &&
      (cfg.window > 1 && s.mode.at > s.mode.lo ==> cfg.lateSendFailures)
    case ReadAck =>
      (s.mode.Acking? || s.mode.Beating?) && s.connected && s.conns != [] &&
      var c := s.conns[|s.conns| - 1]; c.read < |c.acks|
    case AckLost => (s.mode.Acking? || s.mode.Beating?) && s.connected
    case Beat => s.mode.Idle? && s.connected && s.conns != []
    case RemoveSegments(upTo, bare) => upTo <= s.wal.head && (bare ==> upTo == |s.wal.log|)
    case SaveCheckpoint(upTo, skips) => upTo <= s.wal.head && (skips ==> !s.disk.bare)
    case SenderCrash => cfg.commitCrashes || Recoverable(s)
    case ServerRead(c) =>
      c < |s.conns| && var k := s.conns[c];
      k.alive && |k.runs| < |k.sent| && |k.runs| < |k.acks| + cfg.maxInflight
    case ServerWrite(c) =>
      c < |s.conns| && var k := s.conns[c];
      k.alive && |k.acks| < |k.runs| && k.runs[|k.acks|].Finished?
    case Handle(c, i, h) =>
      c < |s.conns| && var k := s.conns[c];
      k.alive && i < |k.runs| && i < |k.sent| && CanStep(cfg, s.receiver, k.sent[i], k.runs[i], h)
    case ReceiverCrash => true
  }

  function SentOn(s: State, f: Frame): seq<Conn>
    requires s.conns != []
  {
    var n := |s.conns| - 1;
    s.conns[n := s.conns[n].(sent := s.conns[n].sent + [f])]
  }

  function Min(a: nat, b: nat): nat {
    if a < b then a else b
  }

  /** After a lost connection the pipeline resends its window from `from`; stop-and-wait starts over
      at Peek. */
  function Retry(cfg: Config, m: Mode, from: nat): Mode {
    if m.Beating? || m.Idle? || cfg.window <= 1 then Idle else Sending(from, m.hi, from)
  }

  /** The client consumes the next ACK byte of the newest connection. */
  function AckRead(cfg: Config, s: State): State
    requires Enabled(cfg, s, ReadAck)
  {
    var n := |s.conns| - 1;
    var c := s.conns[n];
    AfterAck(cfg, s.(conns := s.conns[n := c.(read := c.read + 1)]), c.acks[c.read])
  }

  function AfterAck(cfg: Config, s: State, a: Ack): State
    requires s.mode.Acking? || s.mode.Beating?
  {
    if s.mode.Beating? then s.(mode := Idle)
    else if a == Success then
      var wal := Q.Committed(s.wal, s.mode.at);
      s.(wal := wal,
         everCommitted := if wal.head > s.everCommitted then wal.head else s.everCommitted,
         mode := if s.mode.at + 1 < s.mode.hi then Acking(s.mode.lo, s.mode.hi, s.mode.at + 1) else Idle)
    else if cfg.window <= 1 then s.(mode := Idle)
    else s.(connected := false, mode := Retry(cfg, s.mode, s.mode.at))
  }

  /** The window holds the pending frames, as many as it has places for; or a single one if only the head
      could be read from the WAL. */
  function RoundBegun(cfg: Config, s: State, single: bool): State
    requires Enabled(cfg, s, BeginRound(single))
  {
    var lo := s.wal.head + 1;
    var hi := lo + Min(if cfg.window <= 1 || single then 1 else cfg.window, |s.wal.log| - s.wal.head);
    s.(mode := Sending(lo, hi, lo))
  }

  function FrameSent(cfg: Config, s: State): State
    requires Enabled(cfg, s, Send)
  {
    var m := s.mode;
    s.(conns := SentOn(s, FrameOf(s.wal.log, m.at)),
       mode := if m.at + 1 < m.hi then Sending(m.lo, m.hi, m.at + 1) else Acking(m.lo, m.hi, m.lo))
  }

  function SendFailed(cfg: Config, s: State, arrived: bool): State
    requires Enabled(cfg, s, SendFail(arrived))
  {
    s.(conns := if arrived && s.connected && s.conns != [] then SentOn(s, FrameOf(s.wal.log, s.mode.at)) else s.conns,
       connected := false, mode := Retry(cfg, s.mode, s.mode.at))
  }

  function FrameArrived(s: State, c: nat): State
    requires c < |s.conns|
  {
    var k := s.conns[c];
    s.(conns := s.conns[c := k.(runs := k.runs + [Spawned])])
  }

  function AckWritten(s: State, c: nat): State
    requires c < |s.conns| && var k := s.conns[c]; |k.acks| < |k.runs| && k.runs[|k.acks|].Finished?
  {
    var k := s.conns[c];
    s.(conns := s.conns[c := k.(acks := k.acks + [k.runs[|k.acks|].ack])])
  }

  function Handled(cfg: Config, s: State, c: nat, i: nat, h: HandlerStep): State
    requires Enabled(cfg, s, Handle(c, i, h))
  {
    var k := s.conns[c];
    var (r, pc) := Step(cfg, s.receiver, k.sent[i], IndexZero(cfg, k.sent, i), k.runs[i], h);
    s.(receiver := r, conns := s.conns[c := k.(runs := k.runs[i := pc])])
  }

  /** Handlers and pending seqs are lost; last_seq comes back from its file. */
  function ReceiverLost(s: State): State {
    var p := s.receiver.persisted;
    s.(receiver := s.receiver.(lastSeq := p, tracker := Tracker(p, {}), inflight := map[]),
       conns := seq(|s.conns|, n requires 0 <= n < |s.conns| => s.conns[n].(alive := false)))
  }

  /** The sender restarts from what its WAL finds: the frames that were not acknowledged in the saved
      position, or, with no frame left, the numbering of the checkpoint. Seqs above that number are then
      given out again. */
  function SenderLost(s: State): State {
    var wal := if s.wal.saved < |s.wal.log| || !(1 <= s.disk.next <= |s.wal.log|) then Q.Reopened(s.wal)
               else Q.Queue(s.wal.log[..s.disk.next - 1], s.disk.next - 1, s.disk.next - 1);
    s.(wal := wal, disk := s.disk.(bare := false), everCommitted := Min(s.everCommitted, |wal.log|), mode := Idle,
       connected := false)
  }

  function Apply(cfg: Config, s: State, a: Action): State
    requires Enabled(cfg, s, a)
  {
    match a
    case Append(p) => s.(wal := Q.Appended(s.wal, [p]), disk := s.disk.(bare := false))
    case Connect => s.(connected := true, conns := s.conns + [Conn([], [], [], 0, true)])
    case BeginRound(single) => RoundBegun(cfg, s, single)
    case Send => FrameSent(cfg, s)
    case SendFail(arrived) => SendFailed(cfg, s, arrived)
    case ReadAck => AckRead(cfg, s)
    case AckLost => s.(connected := false, mode := Retry(cfg, s.mode, if s.mode.Acking? then s.mode.at else 0))
    case Beat => s.(conns := SentOn(s, Heartbeat), mode := Beating)
    case RemoveSegments(upTo, bare) =>
      s.(wal := Q.Saved(s.wal, upTo), disk := s.disk.(bare := s.disk.bare || bare))
    case SaveCheckpoint(upTo, skips) =>
      s.(wal := Q.Saved(s.wal, upTo), disk := s.disk.(next := |s.wal.log| + 1, skips := skips))
    case SenderCrash => SenderLost(s)
    case ServerRead(c) => FrameArrived(s, c)
    case ServerWrite(c) => AckWritten(s, c)
    case Handle(c, i, h) => Handled(cfg, s, c, i, h)
    case ReceiverCrash => ReceiverLost(s)
  }

  // ---------------------------------------------------------------- runs

  datatype Option<T> = None | Some(value: T)

  /** The state after performing `run`, or None if one of its actions was not possible. */
  function Exec(cfg: Config, run: seq<Action>): Option<State> {
    if run == [] then Some(INITIAL)
    else
      var before := Exec(cfg, run[..|run| - 1]);
      var a := run[|run| - 1];
      if before.Some? && Enabled(cfg, before.value, a) then Some(Apply(cfg, before.value, a)) else None
  }

  ghost predicate Reachable(cfg: Config, s: State) {
    exists run :: Exec(cfg, run) == Some(s)
  }

  lemma ReachInit(cfg: Config)
    ensures Reachable(cfg, INITIAL)
  {
    assert Exec(cfg, []) == Some(INITIAL);
  }

  lemma ReachStep(cfg: Config, s: State, a: Action)
    requires Reachable(cfg, s) && Enabled(cfg, s, a)
    ensures Reachable(cfg, Apply(cfg, s, a))
  {
    var run :| Exec(cfg, run) == Some(s);
    assert (run + [a])[..|run|] == run;
    assert Exec(cfg, run + [a]) == Some(Apply(cfg, s, a));
  }

  /** The frame that carries seq `k`. */
  function FrameOf(log: seq<Payload>, k: nat): Frame
    requires 1 <= k <= |log|
  {
    Data(k, log[k - 1])
  }

  /** The first `n` appended frames are in the target or the DLQ, payload and all. */
  ghost predicate Delivered(log: seq<Payload>, delivered: set<Frame>, n: nat) {
    n <= |log| && forall k: nat | 1 <= k <= n :: FrameOf(log, k) in delivered
  }

  /** Every frame of the log that was ever committed was delivered. A frame that leaves the log by a crash
      was committed in a state before. */
  ghost predicate Safe(s: State) {
    Delivered(s.wal.log, s.receiver.delivered, s.everCommitted)
  }

  ghost predicate AtLeastOnce(cfg: Config) {
    forall s | Reachable(cfg, s) :: Safe(s)
  }
}
