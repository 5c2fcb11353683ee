/** Splitting the points of a window into frames (internal/sender/poller.go). */
module Batching {
  import opened SeriesKeys
  import opened LineProtocol
  import FastPath

  /** Which payloads can be encoded into one frame: the size limits before and after compression. */
  type SizeLimit = string -> bool

  datatype FrameResult = Framed(payload: string) | TooLarge | Unprintable

  datatype Outcome = Appended | EncodeFailed | WalFailed

  /** The n-th append to the WAL accepts all frames, or fails after the first few. */
  datatype WalAnswer = AcceptsAll | StopsAfter(frames: nat)

  type WalFaults = nat -> WalAnswer

  ghost function FrameOf(points: seq<Point>, fits: SizeLimit): FrameResult {
    match PrintLines(points)
    case Line(text) => if fits(text) then Framed(text) else TooLarge
    case _ => Unprintable
  }

  ghost predicate Fits(points: seq<Point>, fits: SizeLimit) {
    FrameOf(points, fits).Framed?
  }

  /** The points of the frames that are appended for `points`. */
  ghost function SentFrames(points: seq<Point>, batch: nat, fits: SizeLimit): seq<seq<Point>>
    requires batch > 0
    decreases batch, |points|
  {
    if points == [] then []
    else
      var n := if |points| < batch then |points| else batch;
      SentFor(points[..n], batch, fits) + SentFrames(points[n..], batch, fits)
  }

  /** A frame that is too large is split in halves; a point that is too large alone is dropped. */
  ghost function SentFor(frame: seq<Point>, batch: nat, fits: SizeLimit): seq<seq<Point>>
    requires batch > 0
    decreases batch, 0
  {
    if Fits(frame, fits) then [frame]
    else if batch > 1 then SentFrames(frame, batch / 2, fits)
    else []
  }

  function Flatten(frames: seq<seq<Point>>): seq<Point> {
    if frames == [] then [] else frames[0] + Flatten(frames[1..])
  }

  lemma {:induction false} FlattenConcat(a: seq<seq<Point>>, b: seq<seq<Point>>)
    ensures Flatten(a + b) == Flatten(a) + Flatten(b)
  {
    if a == [] {
      assert a + b == b;
    } else {
      assert (a + b)[1..] == a[1..] + b;
      FlattenConcat(a[1..], b);
    }
  }

  // ---------------------------------------------------------------- conservation

  /** `a` is `b` with some points left out. */
  predicate Subsequence(a: seq<Point>, b: seq<Point>) {
    a == [] || (b != [] && ((a[0] == b[0] && Subsequence(a[1..], b[1..])) || Subsequence(a, b[1..])))
  }

  lemma {:induction false} SubsequenceConcat(a: seq<Point>, b: seq<Point>, a': seq<Point>, b': seq<Point>)
    requires Subsequence(a, b) && Subsequence(a', b')
    ensures Subsequence(a + a', b + b')
    decreases |b|
  {
    if b == [] {
      assert a + a' == a' && b + b' == b';
    } else {
      assert (b + b')[1..] == b[1..] + b' && (b + b')[0] == b[0];
      if a != [] && a[0] == b[0] && Subsequence(a[1..], b[1..]) {
        SubsequenceConcat(a[1..], b[1..], a', b');
        assert (a + a')[1..] == a[1..] + a';
      } else {
        SubsequenceConcat(a, b[1..], a', b');
      }
    }
  }

  lemma {:induction false} SubsequenceSelf(a: seq<Point>)
    ensures Subsequence(a, a)
  {
    if a != [] {
      SubsequenceSelf(a[1..]);
    }
  }

  /** Cut into parts of `batch` points, each part fits. */
  ghost predicate PartsFit(points: seq<Point>, batch: nat, fits: SizeLimit)
    requires batch > 0
  {
    if |points| <= batch then points == [] || Fits(points, fits)
    else Fits(points[..batch], fits) && PartsFit(points[batch..], batch, fits)
  }

  /** No frame is smaller than it has to be: if the parts fit, they are the frames, all of them full but the
      last one. */
  lemma {:induction false} FullFrames(points: seq<Point>, batch: nat, fits: SizeLimit)
    requires batch > 0 && PartsFit(points, batch, fits)
    ensures var frames := SentFrames(points, batch, fits);
            && Flatten(frames) == points && (forall f | f in frames :: 0 < |f| <= batch)
            && (forall k | 0 <= k < |frames| - 1 :: |frames[k]| == batch)
            && (0 < |points| <= batch ==> frames == [points])
    decreases |points|
  {
    hide Fits;
    if points != [] {
      var n := if |points| < batch then |points| else batch;
      var rest := points[n..];
      assert points[..|points|] == points;
      assert Fits(points[..n], fits) && PartsFit(rest, batch, fits);
      assert SentFor(points[..n], batch, fits) == [points[..n]];
      FullFrames(rest, batch, fits);
      assert points == points[..n] + rest && SentFrames([], batch, fits) == [];
      assert SentFrames(points, batch, fits) == [points[..n]] + SentFrames(rest, batch, fits);
      assert ([points[..n]] + SentFrames(rest, batch, fits))[1..] == SentFrames(rest, batch, fits);
    }
  }

  /** A part that does not fit goes out in frames half as large. */
  lemma TooLargeHalved(points: seq<Point>, batch: nat, fits: SizeLimit)
    requires 1 < |points| <= batch && !Fits(points, fits) && PartsFit(points, batch / 2, fits)
    ensures var frames := SentFrames(points, batch, fits);
            Flatten(frames) == points && forall k | 0 <= k < |frames| - 1 :: |frames[k]| == batch / 2
  {
    hide Fits, PartsFit;
    FullFrames(points, batch / 2, fits);
    assert points[..|points|] == points && points[|points|..] == [];
    assert SentFrames([], batch, fits) == [];
    var x := SentFor(points, batch, fits);
    assert x + [] == x;
  }

  /** The points that fit into a frame of their own. */
  ghost function Sendable(points: seq<Point>, fits: SizeLimit): seq<Point> {
    if points == [] then []
    else (if Fits([points[0]], fits) then [points[0]] else []) + Sendable(points[1..], fits)
  }

  lemma {:induction false} SendableConcat(a: seq<Point>, b: seq<Point>, fits: SizeLimit)
    ensures Sendable(a + b, fits) == Sendable(a, fits) + Sendable(b, fits)
  {
    hide Fits;
    if a == [] {
      assert a + b == b;
    } else {
      assert (a + b)[1..] == a[1..] + b && (a + b)[0] == a[0];
      SendableConcat(a[1..], b, fits);
      var head := if Fits([a[0]], fits) then [a[0]] else [];
      assert head + (Sendable(a[1..], fits) + Sendable(b, fits)) == head + Sendable(a[1..], fits) + Sendable(b, fits);
    }
  }

  /** Every point that fits alone is appended, once and in order, whatever the size limit is; nothing
      else is added, and nothing is repeated or reordered. */
  lemma {:induction false} Conserved(points: seq<Point>, batch: nat, fits: SizeLimit)
    requires batch > 0
    ensures Sendable(Flatten(SentFrames(points, batch, fits)), fits) == Sendable(points, fits)
    ensures Subsequence(Flatten(SentFrames(points, batch, fits)), points)
    decreases batch, |points|, 1
  {
    hide Fits, Subsequence;
    NothingOf(points);
    if points != [] {
      var n := if |points| < batch then |points| else batch;
      var x, y := SentFor(points[..n], batch, fits), SentFrames(points[n..], batch, fits);
      ConservedFor(points[..n], batch, fits);
      Conserved(points[n..], batch, fits);
      FlattenConcat(x, y);
      SendableConcat(Flatten(x), Flatten(y), fits);
      SendableConcat(points[..n], points[n..], fits);
      SubsequenceConcat(Flatten(x), points[..n], Flatten(y), points[n..]);
      assert points == points[..n] + points[n..];
    }
  }

  lemma NothingOf(points: seq<Point>)
    ensures Subsequence([], points)
  {
  }

  lemma {:induction false} ConservedFor(frame: seq<Point>, batch: nat, fits: SizeLimit)
    requires 0 < |frame| <= batch
    ensures Sendable(Flatten(SentFor(frame, batch, fits)), fits) == Sendable(frame, fits)
    ensures Subsequence(Flatten(SentFor(frame, batch, fits)), frame)
    decreases batch, 0
  {
    if Fits(frame, fits) {
      SubsequenceSelf(frame);
      assert Flatten([frame]) == frame + [] == frame;
    } else if batch > 1 {
      Conserved(frame, batch / 2, fits);
    } else {
      assert frame == [frame[0]] && frame[1..] == [];
    }
  }

  /** A frame that holds a point too large on its own is too large. */
  ghost predicate Monotone(fits: SizeLimit) {
    forall frame: seq<Point>, p | p in frame && Fits(frame, fits) :: Fits([p], fits)
  }

  lemma {:induction false} AllSendable(points: seq<Point>, fits: SizeLimit)
    requires forall p | p in points :: Fits([p], fits)
    ensures Sendable(points, fits) == points
  {
    hide Fits;
    if points != [] {
      AllSendable(points[1..], fits);
    }
  }

  lemma {:induction false} SentAllFit(points: seq<Point>, batch: nat, fits: SizeLimit)
    requires batch > 0
    ensures forall f | f in SentFrames(points, batch, fits) :: Fits(f, fits) && 0 < |f| <= batch
    decreases batch, |points|
  {
    hide Fits;
    if points != [] {
      var n := if |points| < batch then |points| else batch;
      if !Fits(points[..n], fits) && batch > 1 {
        SentAllFit(points[..n], batch / 2, fits);
      }
      SentAllFit(points[n..], batch, fits);
    }
  }

  lemma {:induction false} InFlatten(frames: seq<seq<Point>>, p: Point) returns (f: seq<Point>)
    requires p in Flatten(frames)
    ensures f in frames && p in f
  {
    if p in frames[0] {
      f := frames[0];
    } else {
      f := InFlatten(frames[1..], p);
    }
  }

  /** For a monotone limit the frames hold exactly the points that are not too large on their own. */
  lemma SentExactly(points: seq<Point>, batch: nat, fits: SizeLimit)
    requires batch > 0 && Monotone(fits)
    ensures Flatten(SentFrames(points, batch, fits)) == Sendable(points, fits)
  {
    hide Fits, SentFrames, Flatten;
    var sent := Flatten(SentFrames(points, batch, fits));
    Conserved(points, batch, fits);
    SentAllFit(points, batch, fits);
    forall p | p in sent
      ensures Fits([p], fits)
    {
      var f := InFlatten(SentFrames(points, batch, fits), p);
    }
    AllSendable(sent, fits);
  }

  /** A point of the window is in a frame, or it is too large on its own, or it cannot be printed. */
  lemma SentOrTooLarge(points: seq<Point>, batch: nat, fits: SizeLimit, p: Point)
    requires batch > 0 && p in points
    ensures p in Flatten(SentFrames(points, batch, fits)) || FrameOf([p], fits).TooLarge? || CannotPrint(p)
  {
    hide SentFrames, Flatten, Sendable, Subsequence;
    Conserved(points, batch, fits);
    SendableIff(points, fits, p);
    SendableIff(Flatten(SentFrames(points, batch, fits)), fits, p);
    if FrameOf([p], fits).Unprintable? {
      var q := SomeCannotPrint([p]);
    }
  }

  /** The frame is written, and the line of the point is in it unless the point has no finite field. */
  ghost predicate Carries(frame: seq<Point>, fits: SizeLimit, p: Point) {
    && p in frame && FrameOf(frame, fits).Framed?
    && (PrintLine(p).Line? ==> HasLine(FrameOf(frame, fits).payload, PrintLine(p).text))
    && (PrintLine(p).Line? || PrintLine(p).Skipped?)
  }

  ghost predicate HasLine(payload: string, line: string) {
    exists before, after :: Surrounded(payload, before, line, after)
  }

  predicate Surrounded(payload: string, before: string, line: string, after: string) {
    payload == before + line + ['\n'] + after
  }

  /** A point that is sent is carried by one of the frames. */
  lemma SentIsCarried(points: seq<Point>, batch: nat, fits: SizeLimit, p: Point) returns (f: seq<Point>)
    requires batch > 0 && p in Flatten(SentFrames(points, batch, fits))
    ensures f in SentFrames(points, batch, fits) && Carries(f, fits, p)
  {
    hide SentFrames, Flatten, PrintLine, PrintLines;
    f := InFlatten(SentFrames(points, batch, fits), p);
    SentAllFit(points, batch, fits);
    assert Fits(f, fits);
    var before, after := LineInFrame(f, p);
    if PrintLine(p).Line? {
      assert Surrounded(FrameOf(f, fits).payload, before, PrintLine(p).text, after);
    }
  }

  lemma {:induction false} SendableIff(points: seq<Point>, fits: SizeLimit, p: Point)
    ensures p in Sendable(points, fits) <==> p in points && Fits([p], fits)
  {
    hide Fits;
    if points != [] {
      SendableIff(points[1..], fits, p);
    }
  }

  // ---------------------------------------------------------------- the loop

  class FrameLog {
    /** The points of each frame appended so far. */
    var frames: seq<seq<Point>>
    var appends: nat

    constructor ()
      ensures frames == []
    {
      frames, appends := [], 0;
    }

    /** Appends frames to the WAL, which may fail after accepting some of them. */
    method AppendGood(good: seq<seq<Point>>, wal: WalFaults) returns (ok: bool)
      modifies this
      ensures ok ==> frames == old(frames) + good
      ensures !ok ==> exists n :: wal(n).StopsAfter?
      ensures old(frames) <= frames
    {
      var answer := wal(appends);
      appends := appends + 1;
      ok := answer.AcceptsAll?;
      frames := frames + if ok || answer.frames >= |good| then good else good[..answer.frames];
    }

    /** Encodes the points frame by frame and appends the frames in order. */
    method AppendBatch(points: seq<Point>, size: int, fits: SizeLimit, wal: WalFaults) returns (r: Outcome)
      modifies this
      ensures old(frames) <= frames
      ensures r.Appended? ==> frames == old(frames) + SentFrames(points, if size < 1 then 1 else size, fits)
      ensures r.WalFailed? ==> exists n :: wal(n).StopsAfter?
      ensures r.Appended? ==> forall p | p in points :: !CannotPrint(p)
      ensures r.EncodeFailed? ==> exists p | p in points :: CannotPrint(p)
      decreases if size < 1 then 1 else size, 1
    {
      hide PrintLine, PrintLines, SentFrames, SentFor, CannotPrint;
      var batch: nat := if size < 1 then 1 else size;
      if points == [] {
        NoFrames(batch, fits);
        return Appended;
      }
      var good: seq<seq<Point>> := [];
      var start := 0;
      assert points[0..] == points;
      while start < |points|
        invariant start <= |points| && old(frames) <= frames
        invariant frames + good + SentFrames(points[start..], batch, fits)
                  == old(frames) + SentFrames(points, batch, fits)
        invariant forall p | p in points[..start] :: !CannotPrint(p)
      {
        var end := if start + batch > |points| then |points| else start + batch;
        FrameAt(points, start, batch, fits);
        ghost var was, rest := frames + good, SentFrames(points[end..], batch, fits);
        ghost var sent := SentFor(points[start..end], batch, fits);
        assert was + sent + rest == was + (sent + rest);
        good, r := AppendFrame(points[start..end], good, batch, fits, wal);
        if !r.Appended? {
          return;
        }
        assert points[..end] == points[..start] + points[start..end];
        start := end;
      }
      assert points[start..] == [] && points[..start] == points;
      NoFrames(batch, fits);
      if |good| > 0 {
        var ok := AppendGood(good, wal);
        return if ok then Appended else WalFailed;
      }
      r := Appended;
    }

    /** One frame: it joins the frames waiting to be appended, or these are appended first and the
        points of the frame are split. */
    method AppendFrame(frame: seq<Point>, good: seq<seq<Point>>, batch: nat, fits: SizeLimit, wal: WalFaults)
      returns (waiting: seq<seq<Point>>, r: Outcome)
      requires batch > 0
      modifies this
      ensures old(frames) <= frames
      ensures r.Appended? ==> frames + waiting == old(frames) + good + SentFor(frame, batch, fits)
      ensures r.WalFailed? ==> exists n :: wal(n).StopsAfter?
      ensures r.Appended? ==> forall p | p in frame :: !CannotPrint(p)
      ensures r.EncodeFailed? ==> exists p | p in frame :: CannotPrint(p)
      decreases batch, 0
    {
      hide PrintLine, PrintLines, SentFrames, CannotPrint;
      waiting, r := good, Appended;
      var lines := LinesToProtocolBytes(frame);
      PrintedAll(frame);
      if !lines.Line? {
        ghost var p := SomeCannotPrint(frame);
        return good, EncodeFailed;
      }
      if fits(lines.text) {
        waiting := good + [frame];
      } else if batch > 1 {
        if |good| > 0 {
          var ok := AppendGood(good, wal);
          if !ok {
            return good, WalFailed;
          }
          waiting := [];
        }
        r := AppendBatch(frame, batch / 2, fits, wal);
      }
    }
  }

  /** A point without fields or with a value of an unsupported type. */
  ghost predicate CannotPrint(p: Point) {
    PrintLine(p).NoFields? || PrintLine(p).Unsupported?
  }

  lemma {:induction false} SomeCannotPrint(points: seq<Point>) returns (p: Point)
    requires !PrintLines(points).Line?
    ensures p in points && CannotPrint(p)
  {
    hide PrintLine;
    var n := |points| - 1;
    if !PrintLines(points[..n]).Line? {
      p := SomeCannotPrint(points[..n]);
    } else {
      p := points[n];
    }
  }

  lemma PrintedAll(points: seq<Point>)
    ensures PrintLines(points).Line? ==> forall p | p in points :: !CannotPrint(p)
  {
    hide PrintLine, PrintLines;
    if PrintLines(points).Line? {
      forall p | p in points
        ensures !CannotPrint(p)
      {
        var before, after := LineInFrame(points, p);
      }
    }
  }

  lemma NoFrames(batch: nat, fits: SizeLimit)
    requires batch > 0
    ensures SentFrames([], batch, fits) == []
  {
  }

  lemma FrameAt(points: seq<Point>, start: nat, batch: nat, fits: SizeLimit)
    requires start < |points| && batch > 0
    ensures var end := if start + batch > |points| then |points| else start + batch;
            SentFrames(points[start..], batch, fits)
            == SentFor(points[start..end], batch, fits) + SentFrames(points[end..], batch, fits)
  {
    hide Fits;
    var s := points[start..];
    var n := if |s| < batch then |s| else batch;
    assert s[..n] == points[start..start + n] && s[n..] == points[start + n..];
  }

  /** The lines of the points that have one, in order. */
  ghost function TextsOf(points: seq<Point>): seq<string> {
    if points == [] then []
    else
      var n := |points| - 1;
      TextsOf(points[..n]) + if PrintLine(points[n]).Line? then [PrintLine(points[n]).text] else []
  }

  lemma {:induction false} PayloadIsTexts(points: seq<Point>)
    requires PrintLines(points).Line?
    ensures PrintLines(points).text == FastPath.Joined(TextsOf(points))
  {
    hide PrintLine;
    if points != [] {
      var n := |points| - 1;
      PayloadIsTexts(points[..n]);
      if PrintLine(points[n]).Line? {
        var texts := TextsOf(points[..n]) + [PrintLine(points[n]).text];
        assert texts[..|texts| - 1] == TextsOf(points[..n]);
      } else {
        assert TextsOf(points) == TextsOf(points[..n]);
      }
    }
  }

  /** Split at its newlines, a payload is exactly the lines of its points, each once and in order, if none of
      them has a newline inside. */
  lemma PayloadLines(points: seq<Point>)
    requires PrintLines(points).Line? && forall t | t in TextsOf(points) :: '\n' !in t
    ensures FastPath.SplitLines(PrintLines(points).text) == TextsOf(points) + [[]]
  {
    hide PrintLines, TextsOf, FastPath.Joined, FastPath.SplitLines;
    PayloadIsTexts(points);
    FastPath.TerminatedLines(TextsOf(points));
  }

  /** Each point of a frame is printed on a line of its payload, unless it has no finite field. */
  lemma {:induction false} LineInFrame(points: seq<Point>, p: Point) returns (before: string, after: string)
    requires p in points && PrintLines(points).Line?
    ensures PrintLine(p).Line? || PrintLine(p).Skipped?
    ensures PrintLine(p).Line? ==> PrintLines(points).text == before + PrintLine(p).text + ['\n'] + after
  {
    hide PrintLine;
    before, after := [], [];
    var n := |points| - 1;
    if p in points[..n] {
      before, after := LineInFrame(points[..n], p);
      if PrintLine(p).Line? && PrintLine(points[n]).Line? {
        var last := PrintLine(points[n]).text + ['\n'];
        assert PrintLines(points).text == before + PrintLine(p).text + ['\n'] + (after + last);
        after := after + last;
      }
    } else {
      assert points[n] == p;
      if PrintLine(p).Line? {
        before := PrintLines(points[..n]).text;
        assert PrintLines(points).text == before + PrintLine(p).text + ['\n'] + [];
      }
    }
  }

  /** A payload without any text is encoded and appended like any other: it arises exactly when no point
      of the frame has a finite field. */
  lemma {:induction false} EmptyPayloadIff(points: seq<Point>)
    ensures PrintLines(points) == Line([]) <==> forall p | p in points :: PrintLine(p).Skipped?
  {
    hide PrintLine;
    if points != [] {
      var n := |points| - 1;
      EmptyPayloadIff(points[..n]);
      assert points == points[..n] + [points[n]];
    }
  }
}
