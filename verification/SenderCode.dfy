/** The sender's loops as the code runs them (internal/sender/sender.go, internal/transport/tcp_client.go).
    Each network operation and each commit is an action of the transition system, so whatever holds in
    its reachable states holds in every run of this code. */
module SenderCode {
  import opened Delivery
  import opened DeliverySafety
  import opened SenderWire

  /** What happens around one operation: the steps of server, poller and receiver before it, and how
      the operation itself ends. */
  datatype Moment = Moment(
    others: seq<Action>, peeks: bool, dials: bool, sends: bool, arrives: bool, answers: bool)

  /** Steps that are not the sender's. */
  predicate IsOther(a: Action) {
    || a.Append? || a.RemoveSegments? || a.SaveCheckpoint?
    || a.ServerRead? || a.ServerWrite? || a.Handle? || a.ReceiverCrash?
  }

  /** The steps of the others, each if it can be taken. */
  function AfterOthers(cfg: Config, s: State, others: seq<Action>): State {
    if others == [] then s
    else
      var n := |others| - 1;
      var t := AfterOthers(cfg, s, others[..n]);
      if IsOther(others[n]) && Enabled(cfg, t, others[n]) then Apply(cfg, t, others[n]) else t
  }

  /** The part of the state that only the sender changes. */
  ghost predicate SameForSender(s: State, t: State) {
    && InOrder(s.conns) && InOrder(t.conns)
    && OnWire(t.conns) == OnWire(s.conns) && Successes(t.conns) == Successes(s.conns)
    && t.mode == s.mode && t.connected == s.connected && t.wal.head == s.wal.head
    && s.wal.log <= t.wal.log && |t.conns| == |s.conns| && LastSent(t) == LastSent(s)
  }

  /** What was sent on the newest connection. */
  function LastSent(s: State): seq<Frame> {
    if s.conns == [] then [] else s.conns[|s.conns| - 1].sent
  }

  lemma OthersKeep(cfg: Config, s: State, a: Action)
    requires Reachable(cfg, s) && IsOther(a) && Enabled(cfg, s, a)
    ensures SameForSender(s, Apply(cfg, s, a))
  {
    hide OnWire, Successes, InOrder, Reachable;
    WireReached(cfg, s);
    WireStep(cfg, s, a);
  }

  lemma WireReached(cfg: Config, s: State)
    requires Reachable(cfg, s)
    ensures Ordered(cfg, s) && Aligned(cfg, s) && InOrder(s.conns)
  {
    hide Ordered, Aligned, InOrder;
    var run :| Exec(cfg, run) == Some(s);
    WireAlong(cfg, run);
    OrderedInOrder(cfg, s);
  }

  /** A connected client has a connection, a window under way lies in the log behind the committed frames,
      and its later frames are only sent on a connection that still stands. */
  predicate WellPlaced(s: State) {
    && (s.connected ==> s.conns != [])
    && s.wal.head <= |s.wal.log|
    && (s.mode.Sending? ==>
          && s.wal.head < s.mode.lo <= s.mode.at < s.mode.hi <= |s.wal.log| + 1
          && (s.mode.at > s.mode.lo ==> s.connected))
    && (s.mode.Acking? ==>
          1 <= s.mode.lo <= s.mode.at < s.mode.hi <= |s.wal.log| + 1 && s.wal.head < s.mode.at)
    && (s.mode.Acking? || s.mode.Beating? ==> s.connected)
  }

  lemma WindowNone(log: seq<Payload>, at: nat)
    requires 1 <= at <= |log| + 1
    ensures Window(log, at, at) == []
  {
  }

  lemma WindowNext(log: seq<Payload>, longer: seq<Payload>, at: nat, k: nat)
    requires 1 <= at <= k <= |log| && log <= longer
    ensures Window(log, at, k + 1) == Window(log, at, k) + [FrameOf(log, k)]
    ensures FrameOf(longer, k) == FrameOf(log, k)
  {
  }

  lemma FrameStays(log: seq<Payload>, longer: seq<Payload>, k: nat)
    requires 1 <= k <= |log| && log <= longer
    ensures FrameOf(longer, k) == FrameOf(log, k)
  {
  }

  /** These frames were sent, in order and on the newest connection. */
  ghost predicate Sent(s: State, t: State, frames: seq<Frame>) {
    OnWire(t.conns) == OnWire(s.conns) + frames && LastSent(t) == LastSent(s) + frames
  }

  /** These frames were sent first, and maybe others after them. */
  ghost predicate SentFirst(s: State, t: State, frames: seq<Frame>) {
    OnWire(s.conns) + frames <= OnWire(t.conns) && LastSent(s) + frames <= LastSent(t)
  }

  lemma SentMoreOf(s: State, t: State, u: State, frames: seq<Frame>, f: Frame)
    requires Sent(s, t, frames)
    ensures Sent(t, u, [f]) ==> Sent(s, u, frames + [f])
    ensures SentFirst(t, u, []) ==> SentFirst(s, u, frames)
  {
    hide OnWire, LastSent;
    assert OnWire(s.conns) + (frames + [f]) == OnWire(s.conns) + frames + [f];
    assert LastSent(s) + (frames + [f]) == LastSent(s) + frames + [f];
  }

  /** More was sent in this order, maybe on newer connections. */
  ghost predicate Went(s: State, t: State, frames: seq<Frame>) {
    OnWire(s.conns) + frames <= OnWire(t.conns)
  }

  lemma WentOn(s: State, t: State, u: State, f: Frame)
    requires Went(s, t, []) && Went(t, u, [])
    ensures Went(s, u, [])
    ensures Went(s, t, [f]) ==> Went(s, u, [f])
    ensures OnWire(t.conns) == OnWire(s.conns) && Went(t, u, [f]) ==> Went(s, u, [f])
  {
    hide OnWire;
  }

  /** The first frame of a window went first. */
  lemma WindowWent(s: State, t: State, log: seq<Payload>, lo: nat, k: nat)
    requires 1 <= lo <= k <= |log| + 1 && SentFirst(s, t, Window(log, lo, k))
    ensures Went(s, t, []) && (lo < k ==> Went(s, t, [FrameOf(log, lo)]))
  {
    hide OnWire, LastSent;
    if lo < k {
      assert Window(log, lo, k)[0] == FrameOf(log, lo);
    }
  }

  lemma SentIsFirst(s: State, t: State, frames: seq<Frame>)
    requires Sent(s, t, frames)
    ensures SentFirst(s, t, frames) && Went(s, t, frames) && Went(s, t, [])
  {
    hide OnWire, LastSent;
  }

  lemma SteadyWent(s: State, t: State)
    requires OnWire(t.conns) == OnWire(s.conns)
    ensures Went(s, t, [])
  {
    hide OnWire;
  }

  /** The head moves by at most one for each success that is read, and by exactly one unless a send may fail
      inside a window. */
  ghost predicate Counted(cfg: Config, s: State, t: State) {
    && InOrder(s.conns) && InOrder(t.conns)
    && t.wal.head - s.wal.head <= Successes(t.conns) - Successes(s.conns)
    && (cfg.window == 1 || !cfg.lateSendFailures ==>
          t.wal.head - s.wal.head == Successes(t.conns) - Successes(s.conns))
  }

  /** What one turn of the main loop does. With nothing pending, a heartbeat is sent if it is due. A pending head
      is sent next, as soon as there is a connection and its send succeeds; stop-and-wait sends nothing else and
      leaves no ACK unread that it was given time for. */
  ghost predicate TurnOf(
    cfg: Config, moments: nat -> Moment, s: State, t: State, now: nat, beat: bool, rounds: nat)
  {
    var up, next := s.connected || moments(now).dials, moments(now + 1);
    && Counted(cfg, s, t)
    && if s.wal.head >= |s.wal.log| then
         t.wal.head == s.wal.head && OnWire(t.conns) == OnWire(s.conns) + if beat && up then [Heartbeat] else []
       else
         var head := FrameOf(s.wal.log, s.wal.head + 1);
         if !up then t.wal.head == s.wal.head && OnWire(t.conns) == OnWire(s.conns)
         else if cfg.window > 1 then
           Went(s, t, []) && (rounds > 0 && next.sends ==> Went(s, t, [head]))
         else
           && OnWire(t.conns) == OnWire(s.conns) + (if next.sends || next.arrives then [head] else [])
           && (next.sends && moments(now + 2).answers ==> AllRead(t.conns))
  }

  /** Over many turns the counts add up and the wire only grows. */
  lemma {:induction false} TurnsAdd(
    cfg: Config, moments: nat -> Moment, worlds: seq<State>, times: seq<nat>, beats: nat -> bool, rounds: nat)
    requires 0 < |worlds| == |times| && InOrder(worlds[0].conns)
    requires forall i | 0 <= i < |worlds| - 1 ::
               TurnOf(cfg, moments, worlds[i], worlds[i + 1], times[i], beats(i), rounds)
    ensures Counted(cfg, worlds[0], worlds[|worlds| - 1]) && Went(worlds[0], worlds[|worlds| - 1], [])
  {
    hide OnWire, Successes, InOrder;
    var n := |worlds| - 1;
    if n > 0 {
      TurnsAdd(cfg, moments, worlds[..n], times[..n], beats, rounds);
      TurnWent(cfg, moments, worlds[n - 1], worlds[n], times[n - 1], beats(n - 1), rounds);
      WentOn(worlds[0], worlds[n - 1], worlds[n], Heartbeat);
    }
  }

  lemma TurnWent(cfg: Config, moments: nat -> Moment, s: State, t: State, now: nat, beat: bool, rounds: nat)
    requires TurnOf(cfg, moments, s, t, now, beat, rounds)
    ensures Counted(cfg, s, t) && Went(s, t, [])
  {
    hide OnWire, Successes, InOrder, Counted, FrameOf;
  }

  lemma SentNone(s: State)
    ensures Sent(s, s, [])
  {
  }

  /** Nothing was sent and no success was read. */
  ghost predicate Steady(s: State, t: State) {
    && InOrder(s.conns) && InOrder(t.conns)
    && OnWire(t.conns) == OnWire(s.conns) && Successes(t.conns) == Successes(s.conns)
  }

  /** What an operation on the connection leaves. */
  datatype Reply = Lost | Got(ack: Ack)

  class Sender {
    const cfg: Config
    const maxRetry: nat
    const moments: nat -> Moment
    /** The whole system; the sender acts on its own part of it. */
    var world: State
    var now: nat
    var retryCount: nat

    ghost predicate Valid()
      reads this
    {
      Reachable(cfg, world) && WellPlaced(world) && InOrder(world.conns) && cfg.window >= 1 && maxRetry > 0
    }

    constructor (config: Config, retries: nat, env: nat -> Moment)
      requires config.window >= 1
      ensures Valid() && world == INITIAL && cfg == config
    {
      cfg, maxRetry, moments := config, if retries == 0 then 10 else retries, env;
      world, now, retryCount := INITIAL, 0, 0;
      new;
      ReachInit(cfg);
    }

    method Act(a: Action)
      requires Valid() && Enabled(cfg, world, a) && WellPlaced(Apply(cfg, world, a))
      modifies this`world
      ensures Valid() && world == Apply(cfg, old(world), a)
      ensures OnWire(world.conns) == old(OnWire(world.conns)) + SentBy(cfg, old(world), a)
      ensures Successes(world.conns) == old(Successes(world.conns)) + if Confirms(cfg, old(world), a) then 1 else 0
    {
      hide Apply, Enabled, Reachable, WellPlaced, OnWire, Successes, InOrder, SentBy, Confirms, Ordered, Aligned;
      WireReached(cfg, world);
      WireStep(cfg, world, a);
      ReachStep(cfg, world, a);
      world := Apply(cfg, world, a);
    }

    /** Time passes: the others take their steps. */
    method Elapse() returns (m: Moment)
      requires Valid()
      modifies this`world, this`now
      ensures Valid() && SameForSender(old(world), world)
      ensures world == AfterOthers(cfg, old(world), m.others)
      ensures m == moments(old(now)) && now == old(now) + 1
    {
      hide Apply, Enabled, Reachable, OnWire, Successes, InOrder, SentBy, Confirms;
      m := moments(now);
      now := now + 1;
      for i := 0 to |m.others|
        invariant Valid() && SameForSender(old(world), world) && now == old(now) + 1
        invariant world == AfterOthers(cfg, old(world), m.others[..i])
      {
        var a := m.others[i];
        assert m.others[..i + 1][..i] == m.others[..i];
        if IsOther(a) && Enabled(cfg, world, a) {
          OthersKeep(cfg, world, a);
          Act(a);
        }
      }
      assert m.others[..|m.others|] == m.others;
    }

    /** Connects unless connected. */
    method EnsureConnected() returns (ok: bool)
      requires Valid() && (world.mode.Idle? || world.mode.Sending?)
      modifies this`world, this`now
      ensures Valid() && ok == world.connected && world.mode == old(world.mode)
      ensures ok <==> old(world.connected) || moments(old(now)).dials
      ensures world.wal.head == old(world.wal.head) && old(world.wal.log) <= world.wal.log
      ensures Steady(old(world), world) && now == old(now) + 1
    {
      hide Reachable, OnWire, Successes, InOrder;
      var m := Elapse();
      if world.connected {
        return true;
      }
      if !m.dials {
        return false;
      }
      Act(Connect);
      return true;
    }

    /** Sends the frame at the window position. A failed send loses the connection. */
    method SendFrame() returns (ok: bool)
      requires Valid() && world.mode.Sending?
      modifies this`world, this`now
      ensures Valid() && old(world.wal.log) <= world.wal.log && SentFirst(old(world), world, [])
      ensures ok ==> Sent(old(world), world, [FrameOf(old(world.wal.log), old(world.mode.at))])
      ensures var m := old(world.mode);
              if ok then world.connected
                         && world.mode == if m.at + 1 < m.hi then Sending(m.lo, m.hi, m.at + 1)
                                          else Acking(m.lo, m.hi, m.lo)
              else !world.connected && world.mode == Retry(cfg, m, m.at)
      ensures var late := cfg.window > 1 && old(world.mode.at > world.mode.lo);
              ok <==> old(world.connected) && (moments(old(now)).sends || (late && !cfg.lateSendFailures))
      ensures world.wal.head == old(world.wal.head) && now == old(now) + 1
      ensures Successes(world.conns) == old(Successes(world.conns))
      ensures OnWire(world.conns) == old(OnWire(world.conns)) +
                                     if ok || (old(world.connected) && moments(old(now)).arrives)
                                     then old([FrameOf(world.wal.log, world.mode.at)]) else []
    {
      hide Reachable, OnWire, Successes, InOrder;
      var m := Elapse();
      var late := cfg.window > 1 && world.mode.at > world.mode.lo;
      if world.connected && (m.sends || (late && !cfg.lateSendFailures)) {
        FrameStays(old(world.wal.log), world.wal.log, world.mode.at);
        Act(Send);
        return true;
      }
      FrameStays(old(world.wal.log), world.wal.log, world.mode.at);
      Act(SendFail(m.arrives));
      return false;
    }

    /** Reads one ACK byte, or loses the connection. A success commits the frame the byte belongs to; the
        pipeline gives up the connection on anything else. */
    method WaitAck() returns (r: Reply)
      requires Valid() && (world.mode.Acking? || world.mode.Beating?)
      modifies this`world, this`now
      ensures Valid()
      ensures var m := old(world.mode);
              if m.Beating? then world.mode.Idle?
              else if r == Got(Success) then
                world.mode == if m.at + 1 < m.hi then Acking(m.lo, m.hi, m.at + 1) else Idle
              else world.mode == Retry(cfg, m, m.at) && (r.Lost? || cfg.window > 1 ==> !world.connected)
      ensures !moments(old(now)).answers ==> r.Lost?
      ensures var m := old(world.mode);
              world.wal.head == if m.Acking? && r == Got(Success) && m.at == old(world.wal.head) + 1
                                then m.at else old(world.wal.head)
      ensures OnWire(world.conns) == old(OnWire(world.conns)) && now == old(now) + 1
      ensures Successes(world.conns)
              == old(Successes(world.conns)) + if old(world.mode.Acking?) && r == Got(Success) then 1 else 0
      ensures r.Lost? && moments(old(now)).answers ==> AllRead(world.conns)
      ensures r.Got? && cfg.window == 1 ==> world.connected
    {
      hide Reachable, OnWire, Successes, InOrder;
      var m := Elapse();
      var c := world.conns[|world.conns| - 1];
      if m.answers && c.read < |c.acks| {
        Act(ReadAck);
        return Got(c.acks[c.read]);
      }
      Act(AckLost);
      return Lost;
    }

    method CountFailure()
      modifies this`retryCount
      ensures retryCount == if old(retryCount) + 1 > maxRetry then maxRetry else old(retryCount) + 1
    {
      retryCount := if retryCount + 1 > maxRetry then maxRetry else retryCount + 1;
    }

    /** All frames of the window in a row, up to the first that fails: those before it were sent on the
        connection in order, and it becomes the start of the window, whose end stays. */
    method SendWindow() returns (ok: bool)
      requires Valid() && world.mode.Sending? && cfg.window > 1
      modifies this`world, this`now
      ensures Valid() && world.wal.head == old(world.wal.head) && old(world.wal.log) <= world.wal.log
      ensures var m, log := old(world.mode), old(world.wal.log);
              && 1 <= m.at < m.hi <= |log| + 1
              && if ok then && world.mode == Acking(m.lo, m.hi, m.lo) && world.connected
                            && Sent(old(world), world, Window(log, m.at, m.hi))
                 else && !world.connected && world.mode.Sending? && m.at <= world.mode.at < m.hi
                      && world.mode == Sending(world.mode.at, m.hi, world.mode.at)
                      && SentFirst(old(world), world, Window(log, m.at, world.mode.at))
                      && (old(world.connected) && moments(old(now)).sends ==> world.mode.at > m.at)
                      && (world.mode.at == m.lo || cfg.lateSendFailures)
      ensures Successes(world.conns) == old(Successes(world.conns)) && now > old(now)
    {
      hide Reachable, WellPlaced, Window, FrameOf, OnWire, Successes, InOrder, LastSent, Sent, SentFirst;
      InsideWindow();
      ghost var log, at := world.wal.log, world.mode.at;
      WindowNone(log, at);
      SentNone(world);
      while world.mode.Sending?
        invariant Valid() && (world.mode.Sending? || (world.mode.Acking? && world.mode.at == world.mode.lo))
        invariant world.mode.lo == old(world.mode.lo) && world.mode.hi == old(world.mode.hi)
        invariant world.wal.head == old(world.wal.head) && log <= world.wal.log
        invariant world.mode.Sending? ==>
                    && at <= world.mode.at < world.mode.hi
                    && Sent(old(world), world, Window(log, at, world.mode.at))
                    && (world.mode.at == at ==> now == old(now) && world.connected == old(world.connected))
        invariant world.mode.Acking? ==>
                    now > old(now) && world.connected && Sent(old(world), world, Window(log, at, world.mode.hi))
        invariant Successes(world.conns) == old(Successes(world.conns)) && now >= old(now)
        decreases if world.mode.Sending? then world.mode.hi - world.mode.at else -1
      {
        InsideWindow();
        ghost var k, before := world.mode.at, world;
        WindowNext(log, world.wal.log, at, k);
        var sent := SendFrame();
        SentMoreOf(old(world), before, world, Window(log, at, k), FrameOf(log, k));
        if !sent {
          return false;
        }
      }
      return true;
    }

    lemma InsideWindow()
      requires Valid()
      ensures world.mode.Sending? || world.mode.Acking? ==>
                && 1 <= world.mode.lo <= world.mode.at < world.mode.hi <= |world.wal.log| + 1
                && world.wal.head < world.mode.at
      ensures world.mode.Sending? && world.mode.at > world.mode.lo ==> world.connected
    {
    }

    /** The ACKs of the window in order, up to the first that is not a success: the frames before it are
        committed if the window begins at the WAL head, and it becomes the start of the window. */
    method ReadAcks() returns (all: bool)
      requires Valid() && world.mode.Acking? && cfg.window > 1
      modifies this`world, this`now, this`retryCount
      ensures Valid()
      ensures var m, head := old(world.mode), old(world.wal.head);
              if all then world.mode.Idle? && world.wal.head == if m.at == head + 1 then m.hi - 1 else head
              else && world.mode.Sending? && m.at <= world.mode.at < m.hi
                   && world.mode == Sending(world.mode.at, m.hi, world.mode.at)
                   && world.wal.head == if m.at == head + 1 then world.mode.at - 1 else head
      ensures Successes(world.conns)
              == old(Successes(world.conns)) + if all then old(world.mode.hi - world.mode.at)
                                               else world.mode.at - old(world.mode.at)
      ensures OnWire(world.conns) == old(OnWire(world.conns)) && now >= old(now)
    {
      hide Reachable, WellPlaced, OnWire, Successes, InOrder;
      ghost var m, head := world.mode, world.wal.head;
      InsideWindow();
      while world.mode.Acking?
        invariant Valid() && (world.mode.Acking? || world.mode.Idle?)
        invariant world.mode.Acking? ==>
                    && world.mode.hi == m.hi && m.at <= world.mode.at < m.hi
                    && world.wal.head == if m.at == head + 1 then world.mode.at - 1 else head
        invariant world.mode.Idle? ==> world.wal.head == if m.at == head + 1 then m.hi - 1 else head
        invariant OnWire(world.conns) == old(OnWire(world.conns)) && now >= old(now)
        invariant Successes(world.conns)
                  == old(Successes(world.conns)) + if world.mode.Acking? then world.mode.at - m.at else m.hi - m.at
        decreases if world.mode.Acking? then world.mode.hi - world.mode.at else -1
      {
        InsideWindow();
        var r := WaitAck();
        if r != Got(Success) {
          CountFailure();
          return false;
        }
        retryCount := 0;
      }
      return true;
    }

    /** The window begins at the WAL head and holds what is pending and has a place in it. */
    method StartWindow(single: bool)
      requires Valid() && world.mode.Idle? && world.connected && world.wal.head < |world.wal.log|
      modifies this`world
      ensures Valid() && world == old(world).(mode := world.mode)
      ensures var lo := world.wal.head + 1;
              var places := if cfg.window <= 1 || single then 1 else cfg.window;
              world.mode == Sending(lo, lo + Min(places, |world.wal.log| - world.wal.head), lo)
    {
      hide Reachable, OnWire, Successes, InOrder;
      Act(BeginRound(single));
    }

    /** Go-back-N: the window is sent and its ACKs are read; after a failure the rest of the window is
        sent again on a new connection, for at most `rounds` rounds. The window keeps its end, and unless a
        send fails inside it, it always begins at the WAL head, and all of it is committed at the end. */
    method RunPipeline(rounds: nat)
      requires Valid() && world.mode.Idle? && world.connected && world.wal.head < |world.wal.log| && cfg.window > 1
      modifies this`world, this`now, this`retryCount
      ensures Valid() && (world.mode.Idle? || world.mode.Sending?)
      ensures var lo := old(world.wal.head) + 1;
              var hi := old(lo + if moments(now).peeks then Min(cfg.window, |world.wal.log| - world.wal.head) else 1);
              && (world.mode.Sending? ==>
                    lo <= world.mode.lo < hi && world.mode == Sending(world.mode.lo, hi, world.mode.lo))
              && (!cfg.lateSendFailures ==>
                    world.wal.head == if world.mode.Idle? then hi - 1 else world.mode.lo - 1)
      ensures Counted(cfg, old(world), world) && Went(old(world), world, []) && now >= old(now)
      ensures rounds > 0 && moments(old(now)).sends ==>
                Went(old(world), world, [FrameOf(old(world.wal.log), old(world.wal.head) + 1)])
    {
      hide Reachable, Window, LastSent, OnWire, Successes, InOrder, Sent, SentFirst, Went, FrameOf;
      hide WellPlaced;
      // the rest of the window may not be readable; then the head is sent alone
      StartWindow(!moments(now).peeks);
      ghost var lo, hi, log := world.mode.lo, world.mode.hi, world.wal.log;
      SteadyWent(old(world), world);
      for i := 0 to rounds
        invariant Valid() && world.mode.Sending? && lo <= world.mode.lo < hi
        invariant world.mode == Sending(world.mode.lo, hi, world.mode.lo)
        invariant !cfg.lateSendFailures ==> world.wal.head == world.mode.lo - 1
        invariant Counted(cfg, old(world), world) && Went(old(world), world, []) && now >= old(now)
        invariant i == 0 ==> now == old(now) && world.connected && world.mode.lo == lo && world.wal.log == log
                             && OnWire(world.conns) == old(OnWire(world.conns))
        invariant i > 0 && moments(old(now)).sends ==> Went(old(world), world, [FrameOf(log, lo)])
      {
        ghost var before := world;
        InsideWindow();
        var sent := SendWindow();
        ghost var m, log' := before.mode, before.wal.log;
        if sent {
          SentIsFirst(before, world, Window(log', m.lo, m.hi));
        }
        WindowWent(before, world, log', m.lo, if sent then m.hi else world.mode.at);
        WentOn(old(world), before, world, FrameOf(log, lo));
        ghost var mid := world;
        if !sent {
          CountFailure();
        } else {
          var all := ReadAcks();
          SteadyWent(mid, world);
          WentOn(old(world), mid, world, FrameOf(log, lo));
          if all {
            return;
          }
        }
        mid := world;
        var connected := EnsureConnected();
        SteadyWent(mid, world);
        WentOn(old(world), mid, world, FrameOf(log, lo));
        if !connected {
          CountFailure();
        }
      }
    }

    /** Stop-and-wait: one frame, one ACK. */
    method SendOne()
      requires Valid() && world.mode.Idle? && world.connected && world.wal.head < |world.wal.log| && cfg.window == 1
      modifies this`world, this`now, this`retryCount
      ensures Valid() && world.mode.Idle?
      ensures world.wal.head == old(world.wal.head) + if retryCount == 0 then 1 else 0
      ensures retryCount > 0 ==> retryCount == old(retryCount) + 1 || retryCount == maxRetry <= old(retryCount)
      ensures Counted(cfg, old(world), world) && now > old(now)
      ensures OnWire(world.conns) == old(OnWire(world.conns)) +
                                     if moments(old(now)).sends || moments(old(now)).arrives
                                     then [FrameOf(old(world.wal.log), old(world.wal.head) + 1)] else []
      ensures moments(old(now)).sends && moments(old(now) + 1).answers ==> AllRead(world.conns)
    {
      hide Reachable, WellPlaced, OnWire, Successes, InOrder, FrameOf, Sent, SentFirst;
      StartWindow(true);
      var sent := SendFrame();
      if !sent {
        retryCount := retryCount + 1;
        return;
      }
      InsideWindow();
      var r := WaitAck();
      NothingLeft();
      match r {
        case Got(Success) => retryCount := 0;
        case Got(Fail) => CountFailure();
        case Lost => retryCount := retryCount + 1;
      }
    }

    /** With one frame at a time, no ACK is left unread between two of them. */
    lemma NothingLeft()
      requires Valid()
      ensures world.mode.Idle? && world.connected ==> AllRead(world.conns)
    {
      hide Reachable;
      WireReached(cfg, world);
      if world.connected {
        assert ConnOrdered(cfg, world.conns[|world.conns| - 1]);
      }
    }

    /** Keeps the channel alive while there is nothing to send; failures are ignored. */
    method SendHeartbeat()
      requires Valid() && world.mode.Idle?
      modifies this`world, this`now
      ensures Valid() && world.mode.Idle? && world.wal.head == old(world.wal.head) && now > old(now)
      ensures Successes(world.conns) == old(Successes(world.conns))
      ensures OnWire(world.conns) == old(OnWire(world.conns)) +
                                     if old(world.connected) || moments(old(now)).dials then [Heartbeat] else []
    {
      hide Reachable, OnWire, Successes, InOrder;
      var ok := EnsureConnected();
      if ok {
        Act(Beat);
        var r := WaitAck();
      }
    }

    /** One turn of the main loop: what it sends, and how the head moves with the successes that are read. */
    method Turn(beat: bool, rounds: nat)
      requires Valid() && world.mode.Idle?
      modifies this
      ensures Valid() && (world.mode.Idle? || (cfg.window > 1 && world.mode.Sending?))
      ensures TurnOf(cfg, moments, old(world), world, old(now), beat, rounds) && now > old(now)
      ensures old(world.wal.head >= |world.wal.log|) ==> retryCount == old(retryCount)
      ensures old(world.wal.head < |world.wal.log| && !world.connected && !moments(now).dials) ==>
                retryCount == old(retryCount) + 1
    {
      hide Reachable, WellPlaced, OnWire, Successes, InOrder, FrameOf;
      if world.wal.head >= |world.wal.log| {
        if beat {
          SendHeartbeat();
        }
        var m := Elapse();
      } else {
        ghost var log, k := world.wal.log, world.wal.head + 1;
        var ok := EnsureConnected();
        FrameStays(log, world.wal.log, k);
        if !ok {
          retryCount := retryCount + 1;
        } else if cfg.window > 1 {
          RunPipeline(rounds);
        } else {
          SendOne();
        }
      }
    }

    /** The sender's main loop for `turns` turns, with whatever the rest of the system does meanwhile: every
        turn sends what is due. It ends early only inside a window that was not confirmed in `rounds` rounds.
        In a safe configuration no frame is committed that was not delivered. */
    method Run(turns: nat, beats: nat -> bool, rounds: nat) returns (ghost worlds: seq<State>, ghost times: seq<nat>)
      requires Valid() && world.mode.Idle?
      modifies this
      ensures Valid()
      ensures SafeConfig(cfg) ==> Safe(world)
      ensures |worlds| == |times| == turns + 1 || (0 < |worlds| == |times| <= turns && !world.mode.Idle?)
      ensures worlds[0] == old(world) && times[0] == old(now) && worlds[|worlds| - 1] == world
      ensures forall i | 0 <= i < |worlds| - 1 ::
                TurnOf(cfg, moments, worlds[i], worlds[i + 1], times[i], beats(i), rounds) && times[i] < times[i + 1]
      ensures Counted(cfg, old(world), world) && Went(old(world), world, [])
    {
      hide Reachable, WellPlaced, Safe, TurnOf, Counted, Went, InOrder;
      worlds, times := [world], [now];
      for i := 0 to turns
        invariant Valid() && world.mode.Idle? && |worlds| == |times| == i + 1
        invariant worlds[0] == old(world) && times[0] == old(now) && worlds[i] == world && times[i] == now
        invariant forall j | 0 <= j < i ::
                    && TurnOf(cfg, moments, worlds[j], worlds[j + 1], times[j], beats(j), rounds)
                    && times[j] < times[j + 1]
      {
        Turn(beats(i), rounds);
        worlds, times := worlds + [world], times + [now];
        if !world.mode.Idle? {
          break;
        }
      }
      ReachedIsSafe();
      TurnsAdd(cfg, moments, worlds, times, beats, rounds);
    }

    lemma ReachedIsSafe()
      requires Valid()
      ensures SafeConfig(cfg) ==> Safe(world)
    {
      hide Reachable, Safe;
      if SafeConfig(cfg) {
        SafeConfigDelivers(cfg);
      }
    }
  }
}
