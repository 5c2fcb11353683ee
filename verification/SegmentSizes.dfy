/** When the WAL begins a segment, and how large segments get (internal/wal/wal.go). */
module SegmentSizes {
  import opened Bytes
  import opened FrameCodec
  import opened WalScan
  import W = Wal

  type Segments = map<nat, seq<Byte>>

  ghost predicate SingleRecord(file: seq<Byte>) {
    exists f :: file == Record(f)
  }

  /** No segment is longer than allowed, unless it holds a single record. */
  ghost predicate Bounded(segs: Segments, segSize: nat) {
    forall s | s in segs :: |segs[s]| <= segSize || SingleRecord(segs[s])
  }

  /** The file begins with a record that would not have fitted behind `before` bytes. */
  ghost predicate BeginsTooLong(file: seq<Byte>, before: nat, segSize: nat) {
    exists f, rest :: file == Record(f) + rest && before + |Record(f)| > segSize
  }

  /** A segment follows another only because its first record did not fit into that one. */
  ghost predicate Filled(segs: Segments, segSize: nat) {
    forall s | s in segs && s + 1 in segs && segs[s + 1] != [] :: BeginsTooLong(segs[s + 1], |segs[s]|, segSize)
  }

  /** The newest segment holds a record already, or there is none right before it. */
  ghost predicate Started(st: W.Store) {
    st.curSeg !in st.segs || st.segs[st.curSeg] == [] ==> st.curSeg == 0 || st.curSeg - 1 !in st.segs
  }

  ghost predicate Sized(st: W.Store, segSize: nat) {
    W.WellPlaced(st) && Bounded(st.segs, segSize) && Filled(st.segs, segSize) && Started(st)
  }

  /** An append, as both append methods perform it. */
  function Appended(st: W.Store, f: FrameBytes, seqNo: nat, typ: Byte, segSize: nat): (r: W.Store)
    requires W.WellPlaced(st)
    ensures W.WellPlaced(r)
  {
    W.WrittenAs(W.SpaceMade(st, |f| + RECORD_HEAD, segSize), f, seqNo, typ)
  }

  /** A new segment is begun exactly if none is open or the record would have passed the limit in the open
      one; the others are left as they are. */
  lemma NewSegmentIff(st: W.Store, f: FrameBytes, seqNo: nat, typ: Byte, segSize: nat)
    requires W.WellPlaced(st)
    ensures var r := Appended(st, f, seqNo, typ, segSize);
            && (r.curSeg !in st.segs <==> !st.curOpen || |st.segs[st.curSeg]| + |Record(f)| > segSize)
            && (st.curOpen && r.curSeg !in st.segs ==> r.curSeg == st.curSeg + 1)
            && (!st.curOpen || r.curSeg in st.segs ==> r.curSeg == st.curSeg)
            && r.segs == st.segs[r.curSeg := (if r.curSeg in st.segs then st.segs[r.curSeg] else []) + Record(f)]
  {
    hide Record;
    assert st.curOpen ==> st.curSeg + 1 !in st.segs;
    assert [] + Record(f) == Record(f);
  }

  lemma AppendedSized(st: W.Store, f: FrameBytes, seqNo: nat, typ: Byte, segSize: nat)
    requires Sized(st, segSize)
    ensures Sized(Appended(st, f, seqNo, typ, segSize), segSize)
  {
    hide Record, SingleRecord, BeginsTooLong, Appended;
    NewSegmentIff(st, f, seqNo, typ, segSize);
    var r := Appended(st, f, seqNo, typ, segSize);
    var c := r.curSeg;
    forall s | s in r.segs
      ensures |r.segs[s]| <= segSize || SingleRecord(r.segs[s])
    {
      if s == c && c !in st.segs {
        OneRecord(f);
        assert [] + Record(f) == Record(f);
      }
    }
    forall s | s in r.segs && s + 1 in r.segs && r.segs[s + 1] != []
      ensures BeginsTooLong(r.segs[s + 1], |r.segs[s]|, segSize)
    {
      if s + 1 == c {
        if c in st.segs {
          Longer(st.segs[c], Record(f), |st.segs[s]|, segSize);
        } else {
          First(f, |r.segs[s]|, segSize);
        }
      }
    }
  }

  lemma OneRecord(f: FrameBytes)
    ensures SingleRecord(Record(f))
  {
  }

  lemma Longer(file: seq<Byte>, more: seq<Byte>, before: nat, segSize: nat)
    requires BeginsTooLong(file, before, segSize)
    ensures BeginsTooLong(file + more, before, segSize)
  {
    hide Record;
    var f, rest :| file == Record(f) + rest && before + |Record(f)| > segSize;
    assert file + more == Record(f) + (rest + more);
  }

  lemma First(f: FrameBytes, before: nat, segSize: nat)
    requires before + |Record(f)| > segSize
    ensures BeginsTooLong([] + Record(f), before, segSize)
  {
    hide Record;
    assert [] + Record(f) == Record(f) + [];
  }

  lemma {:induction false} AllSized(st: W.Store, frames: seq<FrameBytes>, segSize: nat)
    requires Sized(st, segSize) && forall f | f in frames :: |f| >= HEADER_SIZE
    ensures Sized(W.AddedAll(st, frames, segSize), segSize)
  {
    hide Sized, W.Added, Appended;
    SizedIs(st, segSize);
    if frames != [] {
      var n := |frames| - 1;
      SizedIs(st, segSize);
      AllSized(st, frames[..n], segSize);
      var before := W.AddedAll(st, frames[..n], segSize);
      AppendedSized(before, frames[n], SeqOf(frames[n]), frames[n][3], segSize);
      AddedIs(before, frames[n], segSize);
    }
  }

  lemma AddedIs(st: W.Store, f: FrameBytes, segSize: nat)
    requires W.WellPlaced(st) && |f| >= HEADER_SIZE
    ensures W.Added(st, f, segSize) == Appended(st, f, SeqOf(f), f[3], segSize)
  {
  }

  /** A call of one of the two append methods. */
  datatype Call = Batch(frames: seq<FrameBytes>) | Encoded(typ: Byte, seqNo: nat, frame: FrameBytes)

  /** Whatever is appended to an empty WAL, no segment grows past the limit but for a single record, and none
      is begun before the one before it was full. */
  method AppendToEmpty(segSize: nat, calls: seq<Call>) returns (w: W.Wal)
    ensures Bounded(w.segs, segSize) && Filled(w.segs, segSize)
  {
    hide W.Wal.Valid, W.Wal.Continues, W.Wal.Abs, W.AddedAll, W.LeadingFrames, W.StampedFrom, Sized, W.Durable;
    hide Appended, W.Encodes;
    W.EmptyDirectory();
    var r := W.Wal.Open(map[], W.NO_CHECKPOINT, segSize, false, map[], 0, 0, [], [], 0);
    w := r.value;
    NothingYet(segSize);
    assert w.Phys() == W.NewSegment(0);
    for i := 0 to |calls|
      invariant Sized(w.Phys(), segSize) && w.segSize == segSize && fresh(w)
    {
      SizedIs(w.Phys(), segSize);
      match calls[i] {
        case Batch(frames) =>
          if w.cp.nextSeq + |frames| <= 0x1_0000_0000_0000_0000 {
            AllSized(w.Phys(), W.StampedFrom(W.LeadingFrames(frames), w.cp.nextSeq), segSize);
            var _ := w.AppendBatch(frames);
          }
        case Encoded(typ, seqNo, frame) =>
          AppendedSized(w.Phys(), frame, seqNo, typ, segSize);
          AppendedIs(w.Phys(), frame, seqNo, typ, segSize);
          var _ := w.AppendEncoded(typ, seqNo, frame);
      }
    }
    SizedIs(w.Phys(), segSize);
  }

  lemma AppendedIs(st: W.Store, f: FrameBytes, seqNo: nat, typ: Byte, segSize: nat)
    requires W.WellPlaced(st)
    ensures Appended(st, f, seqNo, typ, segSize)
            == W.WrittenAs(W.SpaceMade(st, |f| + RECORD_HEAD, segSize), f, seqNo, typ)
  {
  }

  lemma NothingYet(segSize: nat)
    ensures Sized(W.NewSegment(0), segSize)
  {
  }

  lemma SizedIs(st: W.Store, segSize: nat)
    requires Sized(st, segSize)
    ensures W.WellPlaced(st) && Bounded(st.segs, segSize) && Filled(st.segs, segSize)
  {
  }
}
