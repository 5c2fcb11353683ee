/** One server connection: frames are handled concurrently, their ACKs are written in arrival order
    (internal/transport/tcp_server.go). Each method is one critical section or one write. In every run
    the bytes written are the results of the first frames in arrival order, whatever the order in which
    the handlers finish, and at most `maxInflight` launched frames have no ACK yet. What the connection
    does are actions of the transition system. */
module AckPipeline {
  import opened Delivery

  /** The frame types the server tells apart: only gzip data frames are counted. */
  datatype Kind = GzipData | Other

  function CountData(kinds: seq<Kind>): nat {
    if kinds == [] then 0
    else CountData(kinds[..|kinds| - 1]) + if kinds[|kinds| - 1] == GzipData then 1 else 0
  }

  lemma CountLast(kinds: seq<Kind>, kind: Kind)
    ensures CountData(kinds + [kind]) == CountData(kinds) + if kind == GzipData then 1 else 0
  {
    assert (kinds + [kind])[..|kinds|] == kinds;
  }

  /** How the server sees a frame of the transition system. */
  function KindOf(cfg: Config, f: Frame): Kind {
    if f.Data? && !cfg.zstd then GzipData else Other
  }

  function KindsOf(cfg: Config, sent: seq<Frame>): seq<Kind> {
    seq(|sent|, i requires 0 <= i < |sent| => KindOf(cfg, sent[i]))
  }

  function FrameIndex(kinds: seq<Kind>, i: nat): nat
    requires i < |kinds|
  {
    if kinds[i] == GzipData then CountData(kinds[..i]) else 0
  }

  lemma {:induction false} NoDataIff(kinds: seq<Kind>)
    ensures CountData(kinds) == 0 <==> forall k | k in kinds :: k != GzipData
  {
    if kinds != [] {
      var n := |kinds| - 1;
      NoDataIff(kinds[..n]);
      assert kinds == kinds[..n] + [kinds[n]];
      assert kinds[n] in kinds && forall k | k in kinds[..n] :: k in kinds;
    }
  }

  /** The index handed to the handler of a data frame is 0 exactly when the transition system says so:
      always for zstd, otherwise only for the first data frame of the connection. */
  lemma FrameIndexZeroIff(cfg: Config, sent: seq<Frame>, i: nat)
    requires i < |sent| && sent[i].Data?
    ensures FrameIndex(KindsOf(cfg, sent), i) == 0 <==> IndexZero(cfg, sent, i)
  {
    var kinds := KindsOf(cfg, sent);
    NoDataIff(kinds[..i]);
    if !cfg.zstd {
      forall j | 0 <= j < i
        ensures kinds[..i][j] == GzipData <==> sent[j].Data?
      {
      }
      if !IndexZero(cfg, sent, i) {
        var j :| 0 <= j < i && !sent[j].Heartbeat?;
        assert kinds[..i][j] in kinds[..i];
      }
    }
  }

  // ---------------------------------------------------------------- the part of the system seen here

  /** What the connection has launched, knows to have returned and has written, is how the transition
      system sees it. */
  ghost predicate Linked(cfg: Config, k: Conn, kinds: seq<Kind>, answers: map<nat, Ack>, out: seq<Ack>) {
    && |k.runs| == |kinds| <= |k.sent| && kinds == KindsOf(cfg, k.sent[..|kinds|])
    && k.acks == out && (forall i | i in answers :: i < |k.runs| && k.runs[i] == Finished(answers[i]))
  }

  /** Steps that are not those of connection `id`. */
  predicate IsForeign(a: Action, id: nat) {
    !(a == ServerRead(id) || a == ServerWrite(id))
  }

  /** Frames only arrive and finished handlers stay finished while others act. */
  lemma ForeignKeeps(
    cfg: Config, s: State, id: nat, a: Action, kinds: seq<Kind>, answers: map<nat, Ack>, out: seq<Ack>)
    requires id < |s.conns| && Enabled(cfg, s, a) && IsForeign(a, id)
    requires Linked(cfg, s.conns[id], kinds, answers, out)
    ensures id < |Apply(cfg, s, a).conns| && Linked(cfg, Apply(cfg, s, a).conns[id], kinds, answers, out)
  {
    hide Step, KindsOf;
    var k, t := s.conns[id], Apply(cfg, s, a).conns[id];
    assert |t.runs| == |k.runs| && t.acks == k.acks && k.sent <= t.sent;
    assert t.sent[..|kinds|] == k.sent[..|kinds|];
    forall i | i in answers
      ensures t.runs[i] == k.runs[i]
    {
    }
  }

  lemma KindsSnoc(cfg: Config, sent: seq<Frame>, n: nat)
    requires n < |sent|
    ensures KindsOf(cfg, sent[..n + 1]) == KindsOf(cfg, sent[..n]) + [KindOf(cfg, sent[n])]
  {
  }

  lemma ReadLinks(cfg: Config, s: State, id: nat, kinds: seq<Kind>, answers: map<nat, Ack>, out: seq<Ack>)
    requires Enabled(cfg, s, ServerRead(id)) && Linked(cfg, s.conns[id], kinds, answers, out)
    ensures var k, t := s.conns[id], Apply(cfg, s, ServerRead(id));
            id < |t.conns| && Linked(cfg, t.conns[id], kinds + [KindOf(cfg, k.sent[|kinds|])], answers, out)
  {
    KindsSnoc(cfg, s.conns[id].sent, |kinds|);
  }

  lemma ReturnLinks(
    cfg: Config, k: Conn, kinds: seq<Kind>, answers: map<nat, Ack>, out: seq<Ack>, i: nat)
    requires Linked(cfg, k, kinds, answers, out) && i < |k.runs| && k.runs[i].Finished?
    ensures Linked(cfg, k, kinds, answers[i := k.runs[i].ack], out)
  {
    hide KindsOf;
  }

  lemma WriteLinks(cfg: Config, s: State, id: nat, kinds: seq<Kind>, answers: map<nat, Ack>, out: seq<Ack>)
    requires Enabled(cfg, s, ServerWrite(id)) && Linked(cfg, s.conns[id], kinds, answers, out)
    requires |out| in answers
    ensures var t := Apply(cfg, s, ServerWrite(id));
            id < |t.conns| && t.conns[id].alive && Linked(cfg, t.conns[id], kinds, answers, out + [answers[|out|]])
  {
    hide KindsOf;
  }

  /** The writer waits for a result, holds one, has written one, or has stopped. */
  datatype Writer = Waiting | Holding(ack: Ack) | Written | Stopped

  /** What may happen on a connection, or elsewhere. */
  datatype Event = Arrives | Returns(i: nat) | Takes | Writes(ok: bool) | Advances | Closes | Elsewhere(a: Action)

  /** The connection as the rest of the system sees it. */
  datatype PipeView = PipeView(
    world: State, writer: Writer, closed: bool, next: nat, answers: map<nat, Ack>, out: seq<Ack>)

  class Connection {
    const maxInflight: nat
    // shared between the goroutines
    var next: nat
    var results: map<nat, Ack>
    var closed: bool
    // the read loop
    var idx: nat
    var dataIdx: nat
    // the writer
    var writerIdx: nat
    var writer: Writer
    var out: seq<Ack>

    /** What the handlers returned. */
    var answers: map<nat, Ack>
    /** The frames that arrived. */
    ghost var kinds: seq<Kind>
    /** The whole system, of which this is connection `id`. */
    const cfg: Config
    const id: nat
    var world: State

    ghost predicate Valid()
      reads this
    {
      && Counters() && Results() && InOrder()
      && cfg.maxInflight == maxInflight && Reachable(cfg, world)
      && id < |world.conns| && Linked(cfg, world.conns[id], kinds, answers, out)
    }

    ghost predicate Counters()
      reads this
    {
      && idx == |kinds| && dataIdx == CountData(kinds) && idx <= next + maxInflight
      && next == writerIdx <= |out| <= writerIdx + 1 && |out| <= idx
      && (writer.Written? ==> |out| == writerIdx + 1)
      && (writer.Waiting? || writer.Holding? ==> |out| == writerIdx)
    }

    /** A result waits in the map until the writer takes it, and no result is lost. */
    ghost predicate Results()
      reads this
    {
      && (forall i | i in answers :: i < idx)
      && (forall i | i in results :: i in answers && results[i] == answers[i] && i >= writerIdx)
      && (forall i | i in answers && (i > writerIdx || (i == writerIdx && writer.Waiting?)) :: i in results)
      && (writer.Holding? ==> writerIdx in answers && writer.ack == answers[writerIdx])
      && (writer.Holding? || writer.Written? ==> writerIdx !in results)
    }

    /** The bytes on the wire are the results of the first frames in arrival order. */
    ghost predicate InOrder()
      reads this
    {
      forall i | 0 <= i < |out| :: i in answers && out[i] == answers[i]
    }

    /** A connection of which the server has read nothing yet. */
    constructor (config: Config, s: State, n: nat)
      requires Reachable(config, s) && n < |s.conns| && s.conns[n].runs == [] && s.conns[n].acks == []
      ensures Valid() && out == [] && kinds == [] && cfg == config && world == s && id == n
    {
      maxInflight, cfg, world, id := config.maxInflight, config, s, n;
      next, results, closed, idx, dataIdx, writerIdx, writer, out := 0, map[], false, 0, 0, 0, Waiting, [];
      kinds, answers := [], map[];
    }

    /** A frame is read; its handler is launched unless too many frames await their ACK. The handler
        gets the number of gzip data frames before it, or 0 for any other frame. */
    method ReadFrame() returns (launched: bool, frameIdx: nat)
      requires Valid() && world.conns[id].alive && idx < |world.conns[id].sent|
      modifies this`idx, this`dataIdx, this`kinds, this`world
      ensures Valid()
      ensures launched <==> old(idx) < next + maxInflight
      ensures launched ==> Enabled(cfg, old(world), ServerRead(id))
      ensures world == if launched then Apply(cfg, old(world), ServerRead(id)) else old(world)
      ensures var f := old(world.conns[id].sent[idx]);
              && kinds == (if launched then old(kinds) + [KindOf(cfg, f)] else old(kinds))
              && (launched ==> frameIdx == if KindOf(cfg, f) == GzipData then CountData(old(kinds)) else 0)
              && (launched && f.Data? ==> (frameIdx == 0 <==> IndexZero(cfg, old(world.conns[id].sent), old(idx))))
    {
      hide CountData, Reachable, Linked, IndexZero, Apply, Enabled, KindOf, Results, InOrder;
      Bounds();
      MayAct(cfg, world, id);
      if idx >= next + maxInflight {
        return false, 0;
      }
      ghost var k := world.conns[id];
      var kind := KindOf(cfg, world.conns[id].sent[idx]);
      if k.sent[idx].Data? {
        IndexOfNext(cfg, k, kinds, answers, out);
      }
      frameIdx := if kind == GzipData then dataIdx else 0;
      Launch(kind);
      launched := true;
    }

    /** The handler of the next frame is launched; gzip data frames are counted. */
    method Launch(kind: Kind)
      requires Valid() && idx < next + maxInflight && Enabled(cfg, world, ServerRead(id))
      requires idx < |world.conns[id].sent| && kind == KindOf(cfg, world.conns[id].sent[idx])
      modifies this`idx, this`dataIdx, this`kinds, this`world
      ensures Valid() && world == Apply(cfg, old(world), ServerRead(id)) && kinds == old(kinds) + [kind]
    {
      hide CountData, Reachable, Linked, Apply, Enabled, KindOf;
      Bounds();
      CountLast(kinds, kind);
      ReachStep(cfg, world, ServerRead(id));
      ReadLinks(cfg, world, id, kinds, answers, out);
      world := Apply(cfg, world, ServerRead(id));
      if kind == GzipData {
        dataIdx := dataIdx + 1;
      }
      idx, kinds := idx + 1, kinds + [kind];
    }

    lemma Bounds()
      requires Valid()
      ensures |world.conns[id].runs| == idx && world.conns[id].acks == out && idx <= |world.conns[id].sent|
      ensures forall i | i in answers :: i < idx && world.conns[id].runs[i] == Finished(answers[i])
    {
    }

    /** The handler of frame `i` has returned. */
    method SetResult(i: nat)
      requires Valid() && i < idx && i !in answers && world.conns[id].runs[i].Finished?
      modifies this`results, this`answers
      ensures Valid() && answers == old(answers)[i := world.conns[id].runs[i].ack]
    {
      hide CountData, Reachable, Linked;
      Bounds();
      var ack := world.conns[id].runs[i].ack;
      ReturnLinks(cfg, world.conns[id], kinds, answers, out, i);
      results, answers := results[i := ack], answers[i := ack];
    }

    /** The writer takes the result of the next frame in arrival order, if it is there. */
    method NextResult() returns (taken: bool)
      requires Valid() && writer.Waiting?
      modifies this`results, this`writer
      ensures Valid()
      ensures taken <==> writerIdx in answers
      ensures taken ==> writer == Holding(answers[writerIdx])
      ensures !taken ==> writer == if closed then Stopped else Waiting
    {
      hide CountData, Reachable, Linked;
      if writerIdx in results {
        writer, results := Holding(results[writerIdx]), results - {writerIdx};
        return true;
      }
      if closed {
        writer := Stopped;
      }
      return false;
    }

    /** The writer puts one byte on the wire. A failed write closes the pipeline. */
    method WriteAck(ok: bool)
      requires Valid() && writer.Holding? && world.conns[id].alive
      modifies this`out, this`writer, this`closed, this`world
      ensures Valid()
      ensures out == if ok then old(out) + [answers[|old(out)|]] else old(out)
      ensures ok ==> Enabled(cfg, old(world), ServerWrite(id))
      ensures world == (if ok then Apply(cfg, old(world), ServerWrite(id)) else old(world)) && world.conns[id].alive
      ensures closed == (old(closed) || !ok) && writer == if ok then Writer.Written else Stopped
    {
      hide CountData, Reachable, Linked, Apply, Enabled;
      Bounds();
      MayAct(cfg, world, id);
      if ok {
        ReachStep(cfg, world, ServerWrite(id));
        WriteLinks(cfg, world, id, kinds, answers, out);
        world := Apply(cfg, world, ServerWrite(id));
        out, writer := out + [writer.ack], Writer.Written;
      } else {
        closed, writer := true, Stopped;
      }
    }

    method Advance()
      requires Valid() && writer.Written?
      modifies this`next, this`writerIdx, this`writer
      ensures Valid() && next == old(next) + 1 && writer.Waiting?
    {
      hide CountData, Reachable, Linked;
      next, writerIdx, writer := next + 1, writerIdx + 1, Waiting;
    }

    /** The read loop ends. The writer goes on until a result is missing. */
    method Close()
      requires Valid()
      modifies this`closed
      ensures Valid() && closed
    {
      hide CountData, Reachable, Linked;
      closed := true;
    }

    /** Something happens elsewhere: a handler takes a step, a frame is sent, another connection acts. */
    method Elapse(a: Action)
      requires Valid() && Enabled(cfg, world, a) && IsForeign(a, id)
      modifies this`world
      ensures Valid() && world == Apply(cfg, old(world), a)
    {
      hide CountData, Reachable, Linked, Apply, Enabled, IsForeign;
      ReachStep(cfg, world, a);
      ForeignKeeps(cfg, world, id, a, kinds, answers, out);
      world := Apply(cfg, world, a);
    }

    /** One round of the writer's loop: the next result is taken, written, and makes room for another frame. */
    method WriteNext(ok: bool) returns (more: bool)
      requires Valid() && writer.Waiting? && world.conns[id].alive
      modifies this`results, this`writer, this`out, this`world, this`closed, this`next, this`writerIdx
      ensures Valid() && (more <==> old(next) in answers && ok)
      ensures more ==> && world.conns[id].alive && writer.Waiting? && closed == old(closed)
                       && next == old(next) + 1 && out == old(out) + [answers[old(next)]]
      ensures !more ==> next == old(next) && out == old(out) && (closed <==> old(closed) || next in answers)
    {
      hide CountData, Reachable, Linked, Results, Counters, InOrder;
      Positions();
      var taken := NextResult();
      if taken {
        WriteAck(ok);
        if ok {
          Advance();
        }
      }
      Positions();
      more := taken && ok;
    }

    /** The writer's loop: it puts each result on the wire in arrival order, once it is there, until one is
        missing or a write fails. */
    method WriteResults(ok: nat -> bool)
      requires Valid() && writer.Waiting? && world.conns[id].alive
      modifies this`results, this`writer, this`out, this`world, this`closed, this`next, this`writerIdx
      ensures Valid() && old(next) <= next
      ensures old(out) <= out && |out| == next && forall i | 0 <= i < next :: i in answers && out[i] == answers[i]
      ensures (forall i | old(next) <= i < next :: ok(i)) && (next !in answers || !ok(next))
      ensures closed <==> old(closed) || next in answers
    {
      hide CountData, Reachable, Linked, Results, Counters;
      var more := true;
      Positions();
      while more
        invariant Valid() && old(out) <= out && old(next) <= next == |out| <= idx
        invariant forall i | old(next) <= i < next :: ok(i)
        invariant if more then writer.Waiting? && world.conns[id].alive && closed == old(closed)
                  else (next !in answers || !ok(next)) && (closed <==> old(closed) || next in answers)
        decreases idx - next, more
      {
        Positions();
        more := WriteNext(ok(next));
        Positions();
      }
    }

    lemma Positions()
      requires Valid()
      ensures next == writerIdx && |out| <= idx && (forall i | i in answers :: i < idx)
      ensures !writer.Stopped? ==> |out| == next + if writer.Written? then 1 else 0
      ensures writer.Holding? ==> next in answers && writer.ack == answers[next]
    {
      hide CountData, Reachable, Linked, InOrder;
    }

    ghost function View(): PipeView
      reads this
    {
      PipeView(world, writer, closed, next, answers, out)
    }

    /** What an event does, if it can happen. */
    ghost function AfterEvent(v: PipeView, e: Event): PipeView {
      if id >= |v.world.conns| then v else
      var k := v.world.conns[id];
      match e
      case Arrives =>
        if !v.closed && |k.runs| < v.next + maxInflight && Enabled(cfg, v.world, ServerRead(id))
        then v.(world := Apply(cfg, v.world, ServerRead(id))) else v
      case Returns(i) =>
        if i < |k.runs| && k.alive && k.runs[i].Finished? && i !in v.answers
        then v.(answers := v.answers[i := k.runs[i].ack]) else v
      case Takes =>
        if !v.writer.Waiting? then v
        else if v.next in v.answers then v.(writer := Holding(v.answers[v.next]))
        else if v.closed then v.(writer := Stopped) else v
      case Writes(ok) =>
        if !v.writer.Holding? || !k.alive then v
        else if !ok then v.(closed := true, writer := Stopped)
        else if Enabled(cfg, v.world, ServerWrite(id))
        then v.(world := Apply(cfg, v.world, ServerWrite(id)), out := v.out + [v.writer.ack], writer := Writer.Written)
        else v
      case Advances => if v.writer.Written? then v.(next := v.next + 1, writer := Waiting) else v
      case Closes => v.(closed := true)
      case Elsewhere(a) =>
        if IsForeign(a, id) && Enabled(cfg, v.world, a) then v.(world := Apply(cfg, v.world, a)) else v
    }

    ghost function AfterEvents(v: PipeView, events: seq<Event>): PipeView {
      if events == [] then v else AfterEvent(AfterEvents(v, events[..|events| - 1]), events[|events| - 1])
    }

    /** A step of the writer, if the event is one. */
    method WriterActs(e: Event)
      requires Valid() && (e.Takes? || e.Writes? || e.Advances?)
      modifies this
      ensures Valid() && View() == AfterEvent(old(View()), e)
      ensures old(out) <= out && (old(closed) ==> closed) && idx == old(idx)
    {
      hide CountData, Reachable, Linked, Apply, Enabled, Counters, Results, InOrder;
      Bounds();
      Positions();
      MayAct(cfg, world, id);
      match e {
        case Takes =>
          if writer.Waiting? {
            var _ := NextResult();
          }
        case Writes(ok) =>
          if writer.Holding? && world.conns[id].alive {
            WriteAck(ok);
          }
        case Advances =>
          if writer.Written? {
            Advance();
          }
      }
    }

    /** One step of one of the three loops, or of something else. The read loop stops once the pipeline is
        closed. */
    method Happen(e: Event)
      requires Valid()
      modifies this
      ensures Valid() && View() == AfterEvent(old(View()), e)
      ensures old(out) <= out && (old(closed) ==> closed && idx == old(idx))
    {
      hide CountData, Reachable, Linked, Apply, Enabled, Counters, Results, InOrder;
      if e.Takes? || e.Writes? || e.Advances? {
        WriterActs(e);
        return;
      }
      Bounds();
      Positions();
      MayAct(cfg, world, id);
      var k := world.conns[id];
      match e {
        case Arrives =>
          if !closed && k.alive && idx < |k.sent| {
            var _, _ := ReadFrame();
          }
        case Returns(i) =>
          if i < idx && k.alive && k.runs[i].Finished? && i !in answers {
            SetResult(i);
          }
        case Closes => Close();
        case Elsewhere(a) =>
          if IsForeign(a, id) && Enabled(cfg, world, a) {
            Elapse(a);
          }
      }
    }

    /** A life of the connection: its three loops and the rest of the system, interleaved in any way. The bytes
        written never change. */
    method Run(events: seq<Event>)
      requires Valid()
      modifies this
      ensures Valid() && old(out) <= out && View() == AfterEvents(old(View()), events)
      ensures Reachable(cfg, world) && world.conns[id].acks == out
      ensures old(closed) ==> closed && idx == old(idx)
    {
      hide CountData, Reachable, Linked, AfterEvent, Counters, Results, InOrder;
      for n := 0 to |events|
        invariant Valid() && old(out) <= out && (old(closed) ==> closed && idx == old(idx))
        invariant View() == AfterEvents(old(View()), events[..n])
      {
        assert events[..n + 1][..n] == events[..n];
        Happen(events[n]);
      }
      assert events[..|events|] == events;
      Bounds();
    }
  }

  lemma MayAct(cfg: Config, s: State, id: nat)
    requires id < |s.conns|
    ensures var k := s.conns[id];
            && (Enabled(cfg, s, ServerRead(id)) <==>
                  k.alive && |k.runs| < |k.sent| && |k.runs| < |k.acks| + cfg.maxInflight)
            && (Enabled(cfg, s, ServerWrite(id)) <==>
                  k.alive && |k.acks| < |k.runs| && k.runs[|k.acks|].Finished?)
  {
  }

  /** The number handed to the next handler is 0 exactly when the transition system says so. */
  lemma IndexOfNext(cfg: Config, k: Conn, kinds: seq<Kind>, answers: map<nat, Ack>, out: seq<Ack>)
    requires Linked(cfg, k, kinds, answers, out) && |kinds| < |k.sent| && k.sent[|kinds|].Data?
    ensures (if KindOf(cfg, k.sent[|kinds|]) == GzipData then CountData(kinds) else 0) == 0
            <==> IndexZero(cfg, k.sent, |kinds|)
  {
    hide CountData;
    FrameIndexZeroIff(cfg, k.sent, |kinds|);
    assert KindsOf(cfg, k.sent)[..|kinds|] == kinds;
  }
}
