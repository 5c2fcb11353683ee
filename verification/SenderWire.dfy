/** What the sender has put on its connections and read off them, over a whole run. */
module SenderWire {
  import opened Delivery
  import opened DeliverySafety

  /** All frames sent, one connection after the other. */
  function OnWire(conns: seq<Conn>): seq<Frame> {
    if conns == [] then [] else OnWire(conns[..|conns| - 1]) + conns[|conns| - 1].sent
  }

  /** How many of the first `n` ACKs of the connection are successes for data frames. */
  function Confirmed(c: Conn, n: nat): nat
    requires n <= |c.acks| && n <= |c.sent|
  {
    if n == 0 then 0 else Confirmed(c, n - 1) + if c.sent[n - 1].Data? && c.acks[n - 1].Success? then 1 else 0
  }

  /** The client has read no more ACKs than there are, and no more were written than frames were sent. */
  ghost predicate InOrder(conns: seq<Conn>) {
    forall n | 0 <= n < |conns| :: conns[n].read <= |conns[n].acks| <= |conns[n].sent|
  }

  /** How many successes the client has read for data frames, on all connections. */
  ghost function Successes(conns: seq<Conn>): nat
    requires InOrder(conns)
  {
    if conns == [] then 0
    else
      var c := conns[|conns| - 1];
      Successes(conns[..|conns| - 1]) + Confirmed(c, c.read)
  }

  /** Every ACK byte that has arrived on the newest connection was read. */
  predicate AllRead(conns: seq<Conn>) {
    conns != [] && conns[|conns| - 1].read >= |conns[|conns| - 1].acks|
  }

  /** What an action puts on the wire. */
  function SentBy(cfg: Config, s: State, a: Action): seq<Frame>
    requires Enabled(cfg, s, a)
  {
    match a
    case Send => [FrameOf(s.wal.log, s.mode.at)]
    case SendFail(arrived) => if arrived && s.connected && s.conns != [] then [FrameOf(s.wal.log, s.mode.at)] else []
    case Beat => [Heartbeat]
    case _ => []
  }

  /** The action reads a success for a data frame. */
  predicate Confirms(cfg: Config, s: State, a: Action)
    requires Enabled(cfg, s, a)
  {
    a.ReadAck? && s.mode.Acking? && var c := s.conns[|s.conns| - 1]; c.acks[c.read] == Success
  }

  lemma OrderedInOrder(cfg: Config, s: State)
    requires Ordered(cfg, s)
    ensures InOrder(s.conns)
  {
    forall n | 0 <= n < |s.conns|
      ensures s.conns[n].read <= |s.conns[n].acks| <= |s.conns[n].sent|
    {
      assert ConnOrdered(cfg, s.conns[n]);
    }
  }

  /** Every action appends to the wire what it sends, and counts the success that it reads. */
  lemma WireStep(cfg: Config, s: State, a: Action)
    requires Ordered(cfg, s) && Aligned(cfg, s) && Enabled(cfg, s, a)
    ensures InOrder(s.conns) && InOrder(Apply(cfg, s, a).conns)
    ensures OnWire(Apply(cfg, s, a).conns) == OnWire(s.conns) + SentBy(cfg, s, a)
    ensures Successes(Apply(cfg, s, a).conns) == Successes(s.conns) + if Confirms(cfg, s, a) then 1 else 0
  {
    hide ConnOrdered, Aligned, FrameOf, Step, CanStep, HasText;
    var t, n := Apply(cfg, s, a), |s.conns| - 1;
    OrderedStep(cfg, s, a);
    OrderedInOrder(cfg, s);
    OrderedInOrder(cfg, t);
    match a {
      case Send => SentMore(s.conns, t.conns, FrameOf(s.wal.log, s.mode.at));
      case SendFail(arrived) =>
        if arrived && s.connected && s.conns != [] {
          SentMore(s.conns, t.conns, FrameOf(s.wal.log, s.mode.at));
        }
      case Beat => SentMore(s.conns, t.conns, Heartbeat);
      case Connect =>
        assert t.conns[..|s.conns|] == s.conns;
      case ReadAck =>
        AwaitsData(cfg, s);
        ReadOne(s.conns, t.conns);
      case _ => OtherStep(cfg, s, a);
    }
  }

  lemma OtherStep(cfg: Config, s: State, a: Action)
    requires Enabled(cfg, s, a) && InOrder(s.conns) && InOrder(Apply(cfg, s, a).conns)
    requires !(a.Send? || a.SendFail? || a.Beat? || a.Connect? || a.ReadAck?)
    ensures OnWire(Apply(cfg, s, a).conns) == OnWire(s.conns)
    ensures Successes(Apply(cfg, s, a).conns) == Successes(s.conns)
  {
    hide FrameOf, Step, CanStep, HasText, OnWire, Successes, InOrder;
    SameWire(s.conns, Apply(cfg, s, a).conns);
  }

  /** The next ACK is for a data frame exactly if the client waits for the ACKs of a window. */
  lemma AwaitsData(cfg: Config, s: State)
    requires Ordered(cfg, s) && Aligned(cfg, s) && Enabled(cfg, s, ReadAck)
    ensures var c := s.conns[|s.conns| - 1]; c.read < |c.sent| && (c.sent[c.read].Data? <==> s.mode.Acking?)
  {
    hide ConnOrdered, FrameOf;
    var c := s.conns[|s.conns| - 1];
    OrderedInOrder(cfg, s);
    if s.mode.Acking? {
      AckAnswersFrame(cfg, s);
      Numbered(s.wal.log, s.mode.at);
    } else {
      assert Unread(c)[0] == Heartbeat;
    }
  }

  lemma ReadOne(conns: seq<Conn>, conns': seq<Conn>)
    requires conns != [] && InOrder(conns) && InOrder(conns')
    requires var n := |conns| - 1; conns' == conns[n := conns[n].(read := conns[n].read + 1)]
    ensures var c := conns[|conns| - 1];
            && c.read < |c.acks| && OnWire(conns') == OnWire(conns)
            && Successes(conns')
               == Successes(conns) + if c.sent[c.read].Data? && c.acks[c.read].Success? then 1 else 0
  {
    var n := |conns| - 1;
    assert conns'[n].read <= |conns'[n].acks|;
    assert conns'[..n] == conns[..n];
    ConfirmedKept(conns[n], conns'[n], conns[n].read);
  }

  lemma Numbered(log: seq<Payload>, k: nat)
    requires 1 <= k <= |log|
    ensures FrameOf(log, k).Data?
  {
  }

  lemma {:induction false} ConfirmedKept(c: Conn, d: Conn, n: nat)
    requires n <= |c.acks| && n <= |c.sent| && c.acks <= d.acks && c.sent <= d.sent
    ensures Confirmed(d, n) == Confirmed(c, n)
  {
    if n > 0 {
      ConfirmedKept(c, d, n - 1);
    }
  }

  lemma {:induction false} SameWire(conns: seq<Conn>, conns': seq<Conn>)
    requires InOrder(conns) && InOrder(conns') && |conns| == |conns'|
    requires forall n | 0 <= n < |conns| ::
               conns'[n].sent == conns[n].sent && conns'[n].read == conns[n].read && conns[n].acks <= conns'[n].acks
    ensures OnWire(conns') == OnWire(conns) && Successes(conns') == Successes(conns)
  {
    if conns != [] {
      var n := |conns| - 1;
      SameWire(conns[..n], conns'[..n]);
      ConfirmedKept(conns[n], conns'[n], conns[n].read);
    }
  }

  lemma SentMore(conns: seq<Conn>, conns': seq<Conn>, f: Frame)
    requires conns != [] && InOrder(conns) && InOrder(conns')
    requires var n := |conns| - 1; conns' == conns[n := conns[n].(sent := conns[n].sent + [f])]
    ensures OnWire(conns') == OnWire(conns) + [f] && Successes(conns') == Successes(conns)
  {
    var n := |conns| - 1;
    assert conns'[..n] == conns[..n];
    ConfirmedKept(conns[n], conns'[n], conns[n].read);
  }
}
