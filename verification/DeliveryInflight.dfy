/** The receiver's in-flight reference counts, under every interleaving of handlers. */
module DeliveryInflight {
  import opened SeqTracking
  import opened Delivery

  /** The handler has passed addInflight and not yet removeInflight. */
  predicate Counted(pc: Pc) {
    !(pc.Spawned? || pc.Fresh? || pc.Finished?)
  }

  /** How many handlers of one connection hold seq `k`. */
  function RunsOf(k: nat, sent: seq<Frame>, runs: seq<Pc>): nat
    requires |runs| <= |sent|
  {
    if runs == [] then 0
    else
      var n := |runs| - 1;
      RunsOf(k, sent, runs[..n]) + (if Counted(runs[n]) && sent[n].Data? && sent[n].seqNo == k then 1 else 0)
  }

  /** How many live handlers hold seq `k`. */
  function HandlersOf(k: nat, conns: seq<Conn>): nat
    requires forall n | 0 <= n < |conns| :: |conns[n].runs| <= |conns[n].sent|
  {
    if conns == [] then 0
    else
      var n := |conns| - 1;
      HandlersOf(k, conns[..n]) + (if conns[n].alive then RunsOf(k, conns[n].sent, conns[n].runs) else 0)
  }

  function CountIn(m: map<nat, nat>, k: nat): nat {
    if k in m then m[k] else 0
  }

  /** inflightSeq holds exactly the seqs with a live registered handler, with their number. */
  ghost predicate InflightExact(s: State) {
    && (forall n | 0 <= n < |s.conns| :: |s.conns[n].runs| <= |s.conns[n].sent|)
    && (forall k: nat :: CountIn(s.receiver.inflight, k) == HandlersOf(k, s.conns))
    && (forall k | k in s.receiver.inflight :: s.receiver.inflight[k] > 0)
  }

  lemma {:induction false} RunsOfUpdate(k: nat, sent: seq<Frame>, runs: seq<Pc>, i: nat, pc: Pc)
    requires |runs| <= |sent| && i < |runs|
    ensures var holds := sent[i].Data? && sent[i].seqNo == k;
            RunsOf(k, sent, runs[i := pc]) + (if Counted(runs[i]) && holds then 1 else 0)
            == RunsOf(k, sent, runs) + (if Counted(pc) && holds then 1 else 0)
  {
    var n := |runs| - 1;
    if i == n {
      assert runs[i := pc][..n] == runs[..n];
    } else {
      assert runs[i := pc][..n] == runs[..n][i := pc];
      RunsOfUpdate(k, sent, runs[..n], i, pc);
    }
  }

  lemma {:induction false} RunsOfSent(k: nat, sent: seq<Frame>, more: seq<Frame>, runs: seq<Pc>)
    requires |runs| <= |sent|
    ensures RunsOf(k, sent + more, runs) == RunsOf(k, sent, runs)
  {
    if runs != [] {
      RunsOfSent(k, sent, more, runs[..|runs| - 1]);
    }
  }

  function Weight(k: nat, c: Conn): nat
    requires |c.runs| <= |c.sent|
  {
    if c.alive then RunsOf(k, c.sent, c.runs) else 0
  }

  lemma {:induction false} HandlersOfUpdate(k: nat, conns: seq<Conn>, n: nat, c: Conn)
    requires forall m | 0 <= m < |conns| :: |conns[m].runs| <= |conns[m].sent|
    requires n < |conns| && |c.runs| <= |c.sent|
    ensures HandlersOf(k, conns[n := c]) + Weight(k, conns[n]) == HandlersOf(k, conns) + Weight(k, c)
  {
    var m := |conns| - 1;
    if n == m {
      assert conns[n := c][..m] == conns[..m];
    } else {
      assert conns[n := c][..m] == conns[..m][n := c];
      HandlersOfUpdate(k, conns[..m], n, c);
    }
  }

  lemma {:induction false} HandlersOfDead(k: nat, conns: seq<Conn>)
    requires forall n | 0 <= n < |conns| :: |conns[n].runs| <= |conns[n].sent| && !conns[n].alive
    ensures HandlersOf(k, conns) == 0
  {
    if conns != [] {
      HandlersOfDead(k, conns[..|conns| - 1]);
    }
  }

  /** One handler operation changes the count of its seq exactly as it changes its own standing. */
  lemma StepCounts(cfg: Config, r: Receiver, f: Frame, zero: bool, pc: Pc, h: HandlerStep, k: nat)
    requires CanStep(cfg, r, f, pc, h)
    requires Counted(pc) && f.Data? && f.seqNo == k ==> CountIn(r.inflight, k) > 0
    ensures var (r', pc') := Step(cfg, r, f, zero, pc, h);
            var holds := f.Data? && f.seqNo == k;
            CountIn(r'.inflight, k) + (if Counted(pc) && holds then 1 else 0)
            == CountIn(r.inflight, k) + (if Counted(pc') && holds then 1 else 0)
  {
  }

  lemma StepKeepsPositive(cfg: Config, r: Receiver, f: Frame, zero: bool, pc: Pc, h: HandlerStep)
    requires CanStep(cfg, r, f, pc, h) && forall k | k in r.inflight :: r.inflight[k] > 0
    ensures forall k | k in Step(cfg, r, f, zero, pc, h).0.inflight :: Step(cfg, r, f, zero, pc, h).0.inflight[k] > 0
  {
  }

  lemma ExactAt(cfg: Config, s: State, c: nat, i: nat, h: HandlerStep, k: nat)
    requires InflightExact(s) && Enabled(cfg, s, Handle(c, i, h))
    ensures var t := Apply(cfg, s, Handle(c, i, h));
            |t.conns| == |s.conns|
            && (forall n | 0 <= n < |t.conns| :: |t.conns[n].runs| <= |t.conns[n].sent|)
            && CountIn(t.receiver.inflight, k) == HandlersOf(k, t.conns)
  {
    var t := Apply(cfg, s, Handle(c, i, h));
    var conn := s.conns[c];
    var f, pc, pc' := conn.sent[i], conn.runs[i], t.conns[c].runs[i];
    assert t.conns == s.conns[c := conn.(runs := conn.runs[i := pc'])];
    RunsOfUpdate(k, conn.sent, conn.runs, i, pc');
    HandlersOfUpdate(k, s.conns, c, t.conns[c]);
    RunsOfUpdate(k, conn.sent, conn.runs, i, Spawned);
    HandlersOfUpdate(k, s.conns, c, conn.(runs := conn.runs[i := Spawned]));
    StepCounts(cfg, s.receiver, f, IndexZero(cfg, conn.sent, i), pc, h, k);
  }

  lemma ExactSent(s: State, f: Frame)
    requires InflightExact(s) && s.conns != []
    ensures InflightExact(s.(conns := SentOn(s, f)))
  {
    var n := |s.conns| - 1;
    forall k: nat
      ensures HandlersOf(k, SentOn(s, f)) == HandlersOf(k, s.conns)
    {
      HandlersOfUpdate(k, s.conns, n, SentOn(s, f)[n]);
      RunsOfSent(k, s.conns[n].sent, [f], s.conns[n].runs);
    }
  }

  lemma ExactServer(cfg: Config, s: State, a: Action, c: nat)
    requires InflightExact(s) && Enabled(cfg, s, a)
    requires a == ServerRead(c) || a == ServerWrite(c) || (a.ReadAck? && c == |s.conns| - 1)
    ensures InflightExact(Apply(cfg, s, a))
  {
    var t := Apply(cfg, s, a);
    forall k: nat
      ensures HandlersOf(k, t.conns) == HandlersOf(k, s.conns)
    {
      HandlersOfUpdate(k, s.conns, c, t.conns[c]);
      if a.ServerRead? {
        assert (s.conns[c].runs + [Spawned])[..|s.conns[c].runs|] == s.conns[c].runs;
      }
    }
  }

  lemma ExactStep(cfg: Config, s: State, a: Action)
    requires InflightExact(s) && Enabled(cfg, s, a)
    ensures InflightExact(Apply(cfg, s, a))
  {
    var t := Apply(cfg, s, a);
    match a {
      case Handle(c, i, h) =>
        StepKeepsPositive(cfg, s.receiver, s.conns[c].sent[i], IndexZero(cfg, s.conns[c].sent, i), s.conns[c].runs[i],
                          h);
        ExactAt(cfg, s, c, i, h, 0);
        forall k: nat
          ensures CountIn(t.receiver.inflight, k) == HandlersOf(k, t.conns)
        {
          ExactAt(cfg, s, c, i, h, k);
        }
      case ServerRead(c) => ExactServer(cfg, s, a, c);
      case ServerWrite(c) => ExactServer(cfg, s, a, c);
      case ReadAck => ExactServer(cfg, s, a, |s.conns| - 1);
      case Send => ExactSent(s, FrameOf(s.wal.log, s.mode.at));
      case SendFail(arrived) =>
        if arrived && s.connected && s.conns != [] {
          ExactSent(s, FrameOf(s.wal.log, s.mode.at));
        }
      case Beat => ExactSent(s, Heartbeat);
      case Connect => assert t.conns[..|s.conns|] == s.conns;
      case ReceiverCrash =>
        forall k: nat
          ensures HandlersOf(k, t.conns) == 0
        {
          HandlersOfDead(k, t.conns);
        }
      case _ =>
    }
  }

  lemma {:induction false} ExactAlong(cfg: Config, run: seq<Action>)
    requires Exec(cfg, run).Some?
    ensures InflightExact(Exec(cfg, run).value)
  {
    if run != [] {
      var front := run[..|run| - 1];
      ExactAlong(cfg, front);
      ExactStep(cfg, Exec(cfg, front).value, run[|run| - 1]);
    }
  }

  /** Gap closing never passes over a seq that a live handler has registered, even while copies of
      that seq run on several connections. */
  lemma GapCloseSparesHandlers(cfg: Config, s: State, c: nat, i: nat)
    requires Reachable(cfg, s) && Enabled(cfg, s, Handle(c, i, CloseGap))
    ensures var k := s.conns[c];
            var t := Apply(cfg, s, Handle(c, i, CloseGap));
            (forall n | 0 <= n < |s.conns| :: |s.conns[n].runs| <= |s.conns[n].sent|)
            && (t.conns[c].runs[i].Moved? <==>
                forall j: nat | k.runs[i].seen < j < k.sent[i].seqNo :: HandlersOf(j, s.conns) == 0)
  {
    var run :| Exec(cfg, run) == Some(s);
    ExactAlong(cfg, run);
    var seen, seqNo := s.conns[c].runs[i].seen, s.conns[c].sent[i].seqNo;
    forall j: nat
      ensures j in s.receiver.inflight <==> HandlersOf(j, s.conns) > 0
    {
      assert CountIn(s.receiver.inflight, j) == HandlersOf(j, s.conns);
    }
    if GapInflight(s.receiver.inflight, seen, seqNo) {
      var j: nat :| seen < j < seqNo && j in s.receiver.inflight;
      assert HandlersOf(j, s.conns) > 0;
    } else {
      assert forall j: nat | seen < j < seqNo :: HandlersOf(j, s.conns) == 0;
    }
  }
}
