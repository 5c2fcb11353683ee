/** The segmented write-ahead log (internal/wal/wal.go) and what survives a process crash. */
module Wal {
  import opened Bytes
  import opened FrameCodec
  import opened WalScan
  import opened WalIndex
  import Q = WalQueue

  datatype Checkpoint = Checkpoint(cursorNs: int, nextSeq: nat, segStart: nat, ackedBytes: nat, backfillNs: int)

  const NO_CHECKPOINT := Checkpoint(0, 0, 0, 0, 0)
  const BACKFILL_NONE := 0

  datatype FrameData = FrameData(seqNo: nat, bytes: FrameBytes)

  datatype WalError = Empty | OutOfOrder | FrameTooShort | CursorRegress | Corrupted | ReadFailed

  datatype Outcome<+T> = Done(value: T) | Failed(error: WalError)

  /** Nothing is pending when a commit panics: the code then reads past the end of its index. */
  datatype CommitResult = Committed | WrongSeq | Panicked

  /** The part of a WAL that appending changes, whatever frames it holds. */
  datatype Store = Store(
    segs: map<nat, seq<Byte>>, index: seq<FrameIndex>, curSeg: nat, curOpen: bool, curOffset: nat)

  /** A new segment is begun when there is none or `need` bytes do not fit. */
  function SpaceMade(st: Store, need: nat, segSize: nat): (r: Store)
    ensures WellPlaced(st) ==> WellPlaced(r) && r.curOpen
  {
    if st.curOpen && st.curOffset + need <= segSize then st
    else
      var next := if st.curOpen then st.curSeg + 1 else st.curSeg;
      Store(st.segs[next := []], st.index, next, true, 0)
  }

  /** The open segment is the newest one, and its size is known. */
  predicate WellPlaced(st: Store) {
    && (forall s | s in st.segs :: s <= st.curSeg)
    && if st.curOpen then st.curSeg in st.segs && st.curOffset == |st.segs[st.curSeg]| else st.curSeg !in st.segs
  }

  /** A record is written behind the last one, and an entry with the given seq and type points at it. */
  function WrittenAs(st: Store, f: FrameBytes, seqNo: nat, typ: Byte): (r: Store)
    requires WellPlaced(st) && st.curOpen
    ensures WellPlaced(r) && r.curOpen
  {
    st.(segs := st.segs[st.curSeg := st.segs[st.curSeg] + Record(f)],
        index := st.index + [FrameIndex(st.curSeg, st.curOffset, |f|, seqNo, typ)],
        curOffset := st.curOffset + RECORD_HEAD + |f|)
  }

  /** The frame is an encoding with this seq and type. */
  predicate Encodes(f: FrameBytes, seqNo: nat, typ: Byte) {
    WellFormed(f) && SeqOf(f) == seqNo && f[3] == typ
  }

  /** The entry says what the frame header says. */
  function Written(st: Store, f: FrameBytes): (r: Store)
    requires WellPlaced(st) && st.curOpen && |f| >= HEADER_SIZE
    ensures WellPlaced(r) && r.curOpen
    ensures r.index == st.index + [EntryAt(st.curSeg, st.curOffset, f)]
  {
    WrittenAs(st, f, SeqOf(f), f[3])
  }

  /** A file has the bytes an entry points at. */
  predicate Holds(segs: map<nat, seq<Byte>>, e: FrameIndex) {
    e.seg in segs && EndOf(e) <= |segs[e.seg]|
  }

  function BytesAt(segs: map<nat, seq<Byte>>, e: FrameIndex): FrameBytes
    requires Holds(segs, e)
  {
    segs[e.seg][e.offset + RECORD_HEAD..EndOf(e)]
  }

  lemma PlacedOpen(st: Store)
    requires WellPlaced(st) && st.curOpen
    ensures st.curSeg in st.segs
  {
  }

  lemma HeadThenFrame(before: seq<Byte>, f: FrameBytes)
    ensures before + ToBE(|f|, RECORD_HEAD) + f == before + Record(f)
  {
  }

  lemma HoldsIs(segs: map<nat, seq<Byte>>, e: FrameIndex)
    ensures Holds(segs, e) <==> e.seg in segs && e.offset + RECORD_HEAD + e.length <= |segs[e.seg]|
  {
  }

  /** The frames that some entries point at, unless one of them cannot be read. */
  function ReadAll(segs: map<nat, seq<Byte>>, entries: seq<FrameIndex>): Outcome<seq<FrameData>> {
    if entries == [] then Done([])
    else
      var n := |entries| - 1;
      var before := ReadAll(segs, entries[..n]);
      if before.Failed? || !Holds(segs, entries[n]) then Failed(ReadFailed)
      else Done(before.value + [FrameData(entries[n].seqNo, BytesAt(segs, entries[n]))])
  }

  /** The entry points at the frame at position `k` of the log. */
  ghost predicate PointsAt(segs: map<nat, seq<Byte>>, e: FrameIndex, log: seq<FrameBytes>, k: nat) {
    k < |log| && Holds(segs, e) && BytesAt(segs, e) == log[k] && e.seqNo == k + 1 == SeqOf(log[k])
  }

  ghost predicate AllPoint(segs: map<nat, seq<Byte>>, entries: seq<FrameIndex>, log: seq<FrameBytes>, head: nat) {
    forall i | 0 <= i < |entries| :: PointsAt(segs, entries[i], log, head + i)
  }

  /** The frames of the log from position `head` on, with their seqs. */
  ghost predicate FramesFrom(frames: seq<FrameData>, log: seq<FrameBytes>, head: nat) {
    && head + |frames| <= |log|
    && forall i | 0 <= i < |frames| ::
         && frames[i].bytes == log[head + i]
         && frames[i].seqNo == head + i + 1 == SeqOf(frames[i].bytes)
  }

  lemma {:induction false} ReadsFrames(
    segs: map<nat, seq<Byte>>, entries: seq<FrameIndex>, log: seq<FrameBytes>, head: nat)
    requires AllPoint(segs, entries, log, head) && head <= |log|
    ensures var r := ReadAll(segs, entries);
            r.Done? && |r.value| == |entries| && FramesFrom(r.value, log, head)
  {
    hide SeqOf, BytesAt;
    if entries != [] {
      var n := |entries| - 1;
      ReadsFrames(segs, entries[..n], log, head);
      assert PointsAt(segs, entries[n], log, head + n);
    }
  }

  lemma ReadNothing(segs: map<nat, seq<Byte>>)
    ensures ReadAll(segs, []) == Done([])
  {
  }

  /** A read succeeds exactly if the files hold all the bytes, and then returns them in order. */
  lemma {:induction false} ReadAllIff(segs: map<nat, seq<Byte>>, entries: seq<FrameIndex>)
    ensures var r := ReadAll(segs, entries);
            && (r.Done? <==> forall e | e in entries :: Holds(segs, e))
            && (r.Failed? ==> r.error == ReadFailed)
            && (r.Done? ==>
                  && |r.value| == |entries|
                  && forall i | 0 <= i < |entries| ::
                       r.value[i] == FrameData(entries[i].seqNo, BytesAt(segs, entries[i])))
  {
    hide Holds;
    if entries != [] {
      var n := |entries| - 1;
      ReadAllIff(segs, entries[..n]);
      assert entries == entries[..n] + [entries[n]];
    }
  }

  lemma {:induction false} ReadAllStep(segs: map<nat, seq<Byte>>, entries: seq<FrameIndex>, i: nat)
    requires i < |entries| && ReadAll(segs, entries[..i]).Done?
    ensures if Holds(segs, entries[i])
            then ReadAll(segs, entries[..i + 1])
                 == Done(ReadAll(segs, entries[..i]).value
                         + [FrameData(entries[i].seqNo, BytesAt(segs, entries[i]))])
            else ReadAll(segs, entries) == Failed(ReadFailed)
    decreases |entries|
  {
    hide Holds;
    assert entries[..i + 1][..i] == entries[..i];
    ReadAllIff(segs, entries);
    assert entries[i] in entries;
  }

  function Added(st: Store, f: FrameBytes, segSize: nat): (r: Store)
    requires WellPlaced(st) && |f| >= HEADER_SIZE
    ensures WellPlaced(r) && r.curOpen
  {
    Written(SpaceMade(st, |f| + RECORD_HEAD, segSize), f)
  }

  /** Frames appended in order. */
  function AddedAll(st: Store, frames: seq<FrameBytes>, segSize: nat): (r: Store)
    requires WellPlaced(st) && forall f | f in frames :: |f| >= HEADER_SIZE
    ensures WellPlaced(r)
  {
    if frames == [] then st
    else Added(AddedAll(st, frames[..|frames| - 1], segSize), frames[|frames| - 1], segSize)
  }

  /** The frame at position `k` of the log carries seq `k + 1`. */
  ghost predicate Numbered(log: seq<FrameBytes>) {
    forall k | 0 <= k < |log| :: SeqOf(log[k]) == k + 1
  }

  /** Where the record of an entry ends in its segment. */
  function EndOf(e: FrameIndex): nat {
    e.offset + RECORD_HEAD + e.length
  }

  /** How much of segment `lo` a scan that starts from checkpoint `c` skips. */
  function SkipOf(c: Checkpoint, lo: nat): nat {
    if c.segStart == lo then c.ackedBytes else 0
  }

  /** The next seq a checkpoint alone accounts for. */
  function NextOf(c: Checkpoint): nat {
    if c.nextSeq < 1 then 1 else c.nextSeq
  }

  /** What every process crash leaves behind: segments `lo..hi - 1` of whole records, the newest one
      possibly with a torn tail, that still hold the last `pending` frames of the log, and a saved
      checkpoint that does not skip any of them. */
  ghost predicate Durable(
    segs: map<nat, seq<Byte>>, saved: Checkpoint, files: Files, lo: nat, hi: nat, tail: seq<Byte>,
    log: seq<FrameBytes>, pending: nat)
  {
    && lo <= hi && (forall s: nat :: s in segs <==> lo <= s < hi)
    && Covered(files, lo, hi)
    && (forall s: nat | lo <= s < hi :: segs[s] == Segment(files[s]) + if s == hi - 1 then tail else [])
    && |tail| < RECORD_HEAD + HEADER_SIZE
    && IsSuffix(FramesOf(files, lo, hi), log) && Numbered(log)
    && saved.segStart <= lo && saved.nextSeq <= |log| + 1
    && SkipOf(saved, lo) <= (if lo < hi then |Segment(files[lo])| else 0)
    && pending <= |Rescan(files, SkipOf(saved, lo), lo, hi)|
  }

  /** A durable disk together with an index of its segments, of which the last `pending` entries are
      not acknowledged; `skip` is the acknowledged offset in the oldest segment. */
  ghost predicate Coherent(
    segs: map<nat, seq<Byte>>, saved: Checkpoint, files: Files, lo: nat, hi: nat, log: seq<FrameBytes>,
    index: seq<FrameIndex>, pending: nat, skip: nat)
  {
    && lo <= hi && Covered(files, lo, hi)
    && Durable(segs, saved, files, lo, hi, [], log, pending)
    && pending <= |index| && IsSuffix(index, EntriesOf(files, lo, hi))
    && skip <= (if lo < hi then |Segment(files[lo])| else 0)
    && pending <= |Rescan(files, skip, lo, hi)|
  }

  // ---------------------------------------------------------------- each write keeps the disk durable

  /** A new empty segment file. */
  lemma DurableRotate(
    segs: map<nat, seq<Byte>>, saved: Checkpoint, files: Files, lo: nat, hi: nat, log: seq<FrameBytes>, pending: nat)
    requires Durable(segs, saved, files, lo, hi, [], log, pending)
    ensures Durable(segs[hi := []], saved, files[hi := []], lo, hi + 1, [], log, pending)
  {
    hide WellFormed, EntryAt, SeqOf, Numbered, Rescan, FramesOf, EntriesOf;
    AppendSegment(files, files[hi := []], lo, hi);
    RescanOfRotated(files, SkipOf(saved, lo), lo, hi);
  }

  /** Half-written records do no harm while they are shorter than both headers. */
  lemma DurableTorn(
    segs: map<nat, seq<Byte>>, saved: Checkpoint, files: Files, lo: nat, hi: nat, log: seq<FrameBytes>, pending: nat,
    tail: seq<Byte>)
    requires Durable(segs, saved, files, lo, hi, [], log, pending) && lo < hi && |tail| < RECORD_HEAD + HEADER_SIZE
    ensures Durable(segs[hi - 1 := segs[hi - 1] + tail], saved, files, lo, hi, tail, log, pending)
  {
    hide WellFormed, EntryAt, SeqOf, Numbered, Segment, Rescan, FramesOf;
  }

  /** A whole record with the next seq. */
  lemma DurableAppend(
    segs: map<nat, seq<Byte>>, saved: Checkpoint, files: Files, lo: nat, hi: nat, log: seq<FrameBytes>, pending: nat,
    f: FrameBytes)
    requires Durable(segs, saved, files, lo, hi, [], log, pending) && lo < hi && WellFormed(f) && SeqOf(f) == |log| + 1
    ensures var files' := files[hi - 1 := files[hi - 1] + [f]];
            Durable(segs[hi - 1 := segs[hi - 1] + Record(f)], saved, files', lo, hi, [], log + [f], pending + 1)
  {
    hide WellFormed, EntryAt, SeqOf, Segment, Rescan, FramesOf, Record, EntriesOf;
    var files' := files[hi - 1 := files[hi - 1] + [f]];
    AppendFrame(files, files', lo, hi, f);
    AppendToRescan(files, files', SkipOf(saved, lo), lo, hi, f);
    SegmentSnoc(files[hi - 1], f);
    SuffixSnoc(FramesOf(files, lo, hi), log, f);
  }

  lemma CoherentRotate(
    segs: map<nat, seq<Byte>>, saved: Checkpoint, files: Files, lo: nat, hi: nat, log: seq<FrameBytes>,
    index: seq<FrameIndex>, pending: nat, skip: nat)
    requires Coherent(segs, saved, files, lo, hi, log, index, pending, skip)
    ensures hi !in segs
    ensures Coherent(segs[hi := []], saved, files[hi := []], lo, hi + 1, log, index, pending, skip)
  {
    hide WellFormed, EntryAt, SeqOf, Rescan, FramesOf, EntriesOf, Numbered;
    DurableRotate(segs, saved, files, lo, hi, log, pending);
    AppendSegment(files, files[hi := []], lo, hi);
    RescanOfRotated(files, skip, lo, hi);
  }

  lemma CoherentAppend(
    segs: map<nat, seq<Byte>>, saved: Checkpoint, files: Files, lo: nat, hi: nat, log: seq<FrameBytes>,
    index: seq<FrameIndex>, pending: nat, skip: nat, f: FrameBytes)
    requires Coherent(segs, saved, files, lo, hi, log, index, pending, skip)
    requires lo < hi && WellFormed(f) && SeqOf(f) == |log| + 1
    ensures hi - 1 in segs && hi - 1 in files
    ensures var files' := files[hi - 1 := files[hi - 1] + [f]];
            && Coherent(segs[hi - 1 := segs[hi - 1] + Record(f)], saved, files', lo, hi, log + [f],
                        index + [EntryAt(hi - 1, |segs[hi - 1]|, f)], pending + 1, skip)
            && |Rescan(files', SkipOf(saved, lo), lo, hi)| == |Rescan(files, SkipOf(saved, lo), lo, hi)| + 1
            && |Rescan(files', skip, lo, hi)| == |Rescan(files, skip, lo, hi)| + 1
  {
    hide WellFormed, EntryAt, SeqOf, Rescan, FramesOf, EntriesOf, Segment, Record, Numbered;
    var files' := files[hi - 1 := files[hi - 1] + [f]];
    DurableAppend(segs, saved, files, lo, hi, log, pending, f);
    AppendFrame(files, files', lo, hi, f);
    AppendToRescan(files, files', skip, lo, hi, f);
    AppendToRescan(files, files', SkipOf(saved, lo), lo, hi, f);
    SegmentSnoc(files[hi - 1], f);
    SuffixSnoc(index, EntriesOf(files, lo, hi), EntryAt(hi - 1, |segs[hi - 1]|, f));
  }

  /** The unacknowledged entries read back the last frames of the log. */
  lemma ReadsPending(
    segs: map<nat, seq<Byte>>, saved: Checkpoint, files: Files, lo: nat, hi: nat, log: seq<FrameBytes>,
    index: seq<FrameIndex>, pending: nat, skip: nat, i: nat)
    requires Coherent(segs, saved, files, lo, hi, log, index, pending, skip) && i < pending
    ensures pending <= |log|
    ensures var e := index[|index| - pending + i];
            var k := |log| - pending + i;
            && e.seg in segs && lo <= e.seg < hi && e.offset + RECORD_HEAD + e.length <= |segs[e.seg]|
            && segs[e.seg][e.offset + RECORD_HEAD..e.offset + RECORD_HEAD + e.length] == log[k]
            && e.seqNo == k + 1 && e.length == |log[k]|
            && (e.seg == lo <==> |EntriesOf(files, lo, hi)| - pending + i < |files[lo]|)
  {
    hide WellFormed, EntryAt, SeqOf, Segment, Rescan, FramesOf, EntriesOf;
    var es, fs := EntriesOf(files, lo, hi), FramesOf(files, lo, hi);
    var j := |es| - pending + i;
    assert index[|index| - pending + i] == es[j];
    assert fs[j] == log[|log| - pending + i];
    ReadsFrame(files, segs, lo, hi, j);
  }

  /** The oldest segment is removed while the saved checkpoint may still point into it. */
  lemma DurableRemove(
    segs: map<nat, seq<Byte>>, saved: Checkpoint, files: Files, lo: nat, hi: nat, log: seq<FrameBytes>, pending: nat)
    requires Durable(segs, saved, files, lo, hi, [], log, pending) && lo < hi
    requires pending <= |EntriesOf(files, lo + 1, hi)|
    ensures Durable(segs - {lo}, saved, files - {lo}, lo + 1, hi, [], log, pending)
  {
    hide WellFormed, EntryAt, SeqOf, Numbered, Segment, Rescan, FramesOf, EntriesOf;
    RemoveOldest(files, lo, hi);
    SuffixDrop(FramesOf(files, lo, hi), log, |files[lo]|);
  }

  /** Acknowledging the oldest pending frame when it lies in the oldest segment. */
  lemma CommitKeeps(
    segs: map<nat, seq<Byte>>, saved: Checkpoint, files: Files, lo: nat, hi: nat, log: seq<FrameBytes>,
    index: seq<FrameIndex>, pending: nat, skip: nat)
    requires Coherent(segs, saved, files, lo, hi, log, index, pending, skip) && pending > 0
    requires index[|index| - pending].seg == lo
    ensures var e := index[|index| - pending];
            var end := e.offset + RECORD_HEAD + e.length;
            && Coherent(segs, saved, files, lo, hi, log, index, pending - 1, end)
            && |Rescan(files, end, lo, hi)| == pending - 1
  {
    hide WellFormed, EntryAt, SeqOf, Segment, Entries, Unacked, FramesOf, Numbered;
    var es := EntriesOf(files, lo, hi);
    var j := |es| - pending;
    assert index[|index| - pending] == es[j];
    ReadsPending(segs, saved, files, lo, hi, log, index, pending, skip, 0);
    UnackedAfter(lo, 0, files[lo], j);
    assert es[j] == Entries(lo, 0, files[lo])[j];
  }

  /** Removing the oldest segment once none of its frames is pending. */
  lemma CommitRemoves(
    segs: map<nat, seq<Byte>>, saved: Checkpoint, files: Files, lo: nat, hi: nat, log: seq<FrameBytes>,
    index: seq<FrameIndex>, pending: nat)
    requires Durable(segs, saved, files, lo, hi, [], log, pending)
    requires pending <= |index| && IsSuffix(index, EntriesOf(files, lo, hi)) && lo < hi
    requires pending == 0 || index[|index| - pending].seg != lo
    ensures Durable(segs - {lo}, saved, files - {lo}, lo + 1, hi, [], log, pending)
    ensures Coherent(segs - {lo}, saved, files - {lo}, lo + 1, hi, log, index[|index| - pending..], pending, 0)
    ensures IsSuffix(index[|index| - pending..], EntriesOf(files - {lo}, lo + 1, hi)) && SkipOf(saved, lo + 1) == 0
    ensures pending > 0 ==> lo + 1 < hi
    ensures Rescan(files - {lo}, 0, lo + 1, hi) == EntriesOf(files - {lo}, lo + 1, hi)
    ensures |EntriesOf(files - {lo}, lo + 1, hi)| <= |EntriesOf(files, lo, hi)|
  {
    hide WellFormed, EntryAt, SeqOf, Segment, Entries, Unacked, FramesOf, EntriesOf, Numbered, Rescan, IsSuffix, SkipOf;
    RemoveOldest(files, lo, hi);
    PendingElsewhere(segs, files, lo, hi, index, pending);
    DurableRemove(segs, saved, files, lo, hi, log, pending);
    NothingSkipped(saved, lo);
  }

  lemma NothingSkipped(saved: Checkpoint, lo: nat)
    requires saved.segStart <= lo
    ensures SkipOf(saved, lo + 1) == 0
  {
  }

  /** If the oldest pending frame is not in the oldest segment, no pending frame is. */
  lemma PendingElsewhere(
    segs: map<nat, seq<Byte>>, files: Files, lo: nat, hi: nat, index: seq<FrameIndex>, pending: nat)
    requires Covered(files, lo, hi) && forall s: nat | lo <= s < hi :: s in segs && segs[s] == Segment(files[s]) + []
    requires pending <= |index| && IsSuffix(index, EntriesOf(files, lo, hi)) && lo < hi
    requires pending == 0 || index[|index| - pending].seg != lo
    ensures pending <= |EntriesOf(files, lo + 1, hi)| && (pending > 0 ==> lo + 1 < hi)
    ensures IsSuffix(index[|index| - pending..], EntriesOf(files, lo + 1, hi))
  {
    hide WellFormed, EntryAt, SeqOf, Segment, Entries, Unacked, FramesOf, EntriesOf;
    var es, rest := EntriesOf(files, lo, hi), EntriesOf(files, lo + 1, hi);
    RemoveOldest(files, lo, hi);
    SuffixDrop(index, es, |index| - pending);
    if pending > 0 {
      FirstEntries(files, segs, lo, hi, |es| - pending);
      EntriesNeedSegments(files, lo + 1, hi, rest);
    }
    SuffixDrop(es[|files[lo]|..], es, 0);
    SuffixOfBoth(index[|index| - pending..], rest, es);
  }

  /** Every frame outside the oldest segment is found by a scan. */
  lemma RestIsRescanned(files: Files, skip: nat, lo: nat, hi: nat)
    requires Covered(files, lo, hi) && lo < hi
    ensures Covered(files - {lo}, lo + 1, hi)
    ensures |EntriesOf(files - {lo}, lo + 1, hi)| <= |Rescan(files, skip, lo, hi)|
  {
    hide WellFormed, EntryAt, Segment, Entries, Unacked;
    RemoveOldest(files, lo, hi);
  }

  lemma FirstEntries(files: Files, segs: map<nat, seq<Byte>>, lo: nat, hi: nat, j: nat)
    requires Covered(files, lo, hi) && lo < hi && j < |EntriesOf(files, lo, hi)|
    requires forall s: nat | lo <= s < hi :: s in segs && segs[s] == Segment(files[s]) + []
    ensures EntriesOf(files, lo, hi)[j].seg == lo <==> j < |files[lo]|
    ensures |EntriesOf(files, lo, hi)| == |files[lo]| + |EntriesOf(files, lo + 1, hi)|
  {
    hide WellFormed, EntryAt, SeqOf, Segment;
    forall s: nat | lo <= s < hi
      ensures segs[s] == Segment(files[s])
    {
      assert Segment(files[s]) + [] == Segment(files[s]);
    }
    ReadsFrame(files, segs, lo, hi, j);
  }

  /** Without the oldest segment, a frame is left on disk exactly when the newest one is elsewhere. */
  lemma LastFrame(
    segs: map<nat, seq<Byte>>, saved: Checkpoint, files: Files, lo: nat, hi: nat, log: seq<FrameBytes>,
    index: seq<FrameIndex>, skip: nat)
    requires Coherent(segs, saved, files, lo, hi, log, index, 1, skip)
    ensures index != [] && lo < hi && Covered(files - {lo}, lo + 1, hi)
    ensures |Rescan(files - {lo}, 0, lo + 1, hi)| > 0 <==> index[|index| - 1].seg != lo
    ensures index[|index| - 1].seg != lo ==> lo + 1 < hi
  {
    hide WellFormed, EntryAt, SeqOf, Rescan, FramesOf, EntriesOf, Segment, Numbered;
    ReadsPending(segs, saved, files, lo, hi, log, index, 1, skip, 0);
    hide Durable, Coherent;
    RemoveOldest(files, lo, hi);
  }

  lemma DurableFewer(
    segs: map<nat, seq<Byte>>, saved: Checkpoint, files: Files, lo: nat, hi: nat, log: seq<FrameBytes>, pending: nat,
    fewer: nat)
    requires Durable(segs, saved, files, lo, hi, [], log, pending) && fewer <= pending
    ensures Durable(segs, saved, files, lo, hi, [], log, fewer)
    ensures lo < hi ==> hi - 1 in segs
    ensures pending <= |Rescan(files, SkipOf(saved, lo), lo, hi)|
  {
    hide WellFormed, SeqOf, Segment, Rescan, FramesOf;
  }

  /** Saving the checkpoint in memory. */
  lemma CoherentSaved(
    segs: map<nat, seq<Byte>>, saved: Checkpoint, files: Files, lo: nat, hi: nat, log: seq<FrameBytes>,
    index: seq<FrameIndex>, pending: nat, c: Checkpoint)
    requires Coherent(segs, saved, files, lo, hi, log, index, pending, c.ackedBytes)
    requires c.segStart == lo && c.nextSeq <= |log| + 1
    ensures Coherent(segs, c, files, lo, hi, log, index, pending, c.ackedBytes)
  {
    hide WellFormed, SeqOf, Segment, Rescan, FramesOf, EntriesOf, Numbered;
  }

  lemma SkipsAcked(c: Checkpoint)
    ensures SkipOf(c, c.segStart) == c.ackedBytes
  {
  }

  lemma EntriesNeedSegments(files: Files, lo: nat, hi: nat, index: seq<FrameIndex>)
    requires Covered(files, lo, hi) && IsSuffix(index, EntriesOf(files, lo, hi)) && index != []
    ensures lo < hi
  {
  }

  /** If the second pending frame lies in the oldest segment, so does the first. */
  lemma OldestFirst(
    segs: map<nat, seq<Byte>>, saved: Checkpoint, files: Files, lo: nat, hi: nat, log: seq<FrameBytes>,
    index: seq<FrameIndex>, pending: nat, skip: nat)
    requires Coherent(segs, saved, files, lo, hi, log, index, pending, skip) && pending > 0
    ensures lo < hi && index != []
    ensures pending > 1 && index[|index| - pending + 1].seg == lo ==> index[|index| - pending].seg == lo
  {
    hide WellFormed, EntryAt, SeqOf, Segment, Rescan, FramesOf;
    ReadsPending(segs, saved, files, lo, hi, log, index, pending, skip, 0);
    if pending > 1 {
      ReadsPending(segs, saved, files, lo, hi, log, index, pending, skip, 1);
    }
  }

  lemma DurableFewest(
    segs: map<nat, seq<Byte>>, saved: Checkpoint, files: Files, lo: nat, hi: nat, tail: seq<Byte>,
    log: seq<FrameBytes>, pending: nat)
    requires Durable(segs, saved, files, lo, hi, tail, log, pending)
    ensures Covered(files, lo, hi) && pending <= |Rescan(files, SkipOf(saved, lo), lo, hi)|
    ensures lo == hi ==> Rescan(files, SkipOf(saved, lo), lo, hi) == []
  {
  }

  lemma NumberedOf(
    segs: map<nat, seq<Byte>>, saved: Checkpoint, files: Files, lo: nat, hi: nat, tail: seq<Byte>,
    log: seq<FrameBytes>, pending: nat)
    requires Durable(segs, saved, files, lo, hi, tail, log, pending)
    ensures Numbered(log)
  {
  }

  lemma CoherentHasNewest(
    segs: map<nat, seq<Byte>>, saved: Checkpoint, files: Files, lo: nat, hi: nat, log: seq<FrameBytes>,
    index: seq<FrameIndex>, skip: nat)
    requires Coherent(segs, saved, files, lo, hi, log, index, |index|, skip) && lo < hi
    ensures hi - 1 in segs
  {
  }

  lemma DurableRange(
    segs: map<nat, seq<Byte>>, saved: Checkpoint, files: Files, lo: nat, hi: nat, tail: seq<Byte>,
    log: seq<FrameBytes>, pending: nat)
    requires Durable(segs, saved, files, lo, hi, tail, log, pending)
    ensures lo <= hi && Covered(files, lo, hi) && saved.segStart <= lo && saved.nextSeq <= |log| + 1
    ensures forall s: nat :: s in segs <==> lo <= s < hi
    ensures SkipOf(saved, lo) <= (if lo < hi then |Segment(files[lo])| else 0)
    ensures Durable(segs, saved, files, lo, hi, tail, log, |Rescan(files, SkipOf(saved, lo), lo, hi)|)
  {
  }

  lemma SameBytes(
    segs: map<nat, seq<Byte>>, segs': map<nat, seq<Byte>>, saved: Checkpoint, files: Files, lo: nat, hi: nat,
    log: seq<FrameBytes>, pending: nat)
    requires Durable(segs, saved, files, lo, hi, [], log, pending)
    requires Durable(segs', saved, files, lo, hi, [], log, pending)
    ensures segs == segs'
  {
    hide WellFormed, Segment, Rescan, FramesOf, Numbered;
    assert segs.Keys == segs'.Keys;
  }

  /** What the index says that a scan of a durable directory builds. */
  lemma IndexIs(
    dir: map<nat, seq<Byte>>, segs: map<nat, seq<Byte>>, saved: Checkpoint, files: Files, lo: nat, hi: nat,
    tail: seq<Byte>, log: seq<FrameBytes>, pending: nat)
    requires Durable(dir, saved, files, lo, hi, tail, log, pending)
    requires Durable(segs, saved, files, lo, hi, [], log, pending)
    ensures Covered(files, lo, hi)
    ensures var index := Rescan(files, SkipOf(saved, lo), lo, hi);
            && pending <= |index| && Coherent(segs, saved, files, lo, hi, log, index, |index|, SkipOf(saved, lo))
            && (|index| > 0 ==> index[|index| - 1].seqNo == |log|)
            && forall k | 0 <= k < |index| :: index[k].seqNo <= |log|
    ensures tail == [] ==> segs == dir
  {
    hide Durable, Coherent, Rescan;
    CoherentReopened(segs, saved, files, lo, hi, log, pending);
    PendingSeqs(segs, saved, files, lo, hi, log, Rescan(files, SkipOf(saved, lo), lo, hi), SkipOf(saved, lo));
    DurableFewest(segs, saved, files, lo, hi, [], log, pending);
    if tail == [] {
      SameBytes(dir, segs, saved, files, lo, hi, log, pending);
    }
  }

  /** A directory from which Open continues the log: it holds a segment or the checkpoint skips
      nothing, and it knows the last seq from a frame to resend or from the checkpoint. */
  predicate ReopensWell(file: Checkpoint, lo: nat, hi: nat, appended: nat, resent: nat) {
    (lo < hi || file.ackedBytes == 0) && (resent > 0 || NextOf(file) == appended + 1)
  }

  /** An index of everything that a scan of a durable disk finds. */
  lemma CoherentReopened(
    segs: map<nat, seq<Byte>>, saved: Checkpoint, files: Files, lo: nat, hi: nat, log: seq<FrameBytes>, pending: nat)
    requires Durable(segs, saved, files, lo, hi, [], log, pending)
    ensures Covered(files, lo, hi)
    ensures var index := Rescan(files, SkipOf(saved, lo), lo, hi);
            Coherent(segs, saved, files, lo, hi, log, index, |index|, SkipOf(saved, lo))
  {
    hide WellFormed, SeqOf, EntryAt, FramesOf, EntriesOf, Segment, Numbered, Rescan, Durable;
    DurableRange(segs, saved, files, lo, hi, [], log, pending);
    RescanSuffix(files, SkipOf(saved, lo), lo, hi);
  }

  lemma PendingSeqs(
    segs: map<nat, seq<Byte>>, saved: Checkpoint, files: Files, lo: nat, hi: nat, log: seq<FrameBytes>,
    index: seq<FrameIndex>, skip: nat)
    requires Coherent(segs, saved, files, lo, hi, log, index, |index|, skip)
    ensures |index| > 0 ==> lo < hi && index[|index| - 1].seqNo == |log|
    ensures forall k | 0 <= k < |index| :: index[k].seqNo <= |log|
  {
    hide WellFormed, SeqOf, EntryAt, FramesOf, EntriesOf, Segment, Numbered, Rescan, Coherent;
    forall k | 0 <= k < |index|
      ensures lo < hi && index[k].seqNo == |log| - |index| + k + 1
    {
      ReadsPending(segs, saved, files, lo, hi, log, index, |index|, skip, k);
    }
    if |index| > 0 {
      assert index[|index| - 1].seqNo == |log|;
    }
  }

  /** The scan of one segment of a durable disk. */
  lemma ScanOfDurable(
    segs: map<nat, seq<Byte>>, saved: Checkpoint, files: Files, lo: nat, hi: nat, tail: seq<Byte>,
    log: seq<FrameBytes>, pending: nat, s: nat)
    requires Durable(segs, saved, files, lo, hi, tail, log, pending) && lo <= s < hi
    ensures var skip := if s == lo then SkipOf(saved, lo) else 0;
            Scan(s, segs[s], 0, skip) == Scanned(Unacked(s, 0, files[s], skip), Segment(files[s]))
    ensures s > lo ==> Unacked(s, 0, files[s], 0) == Entries(s, 0, files[s])
  {
    hide WellFormed, SeqOf, EntryAt, Segment, Rescan, FramesOf, EntriesOf, Scan, Unacked, Entries;
    var t := if s == hi - 1 then tail else [];
    var skip := if s == lo then SkipOf(saved, lo) else 0;
    ScanExact(s, [], files[s], t, skip);
    assert [] + Segment(files[s]) == Segment(files[s]);
    UnackedAll(s, 0, files[s], 0);
  }

  /** The least and the greatest element. */
  method Extremes(keys: set<nat>) returns (least: nat, greatest: nat)
    requires keys != {}
    ensures least in keys && greatest in keys && forall k | k in keys :: least <= k <= greatest
  {
    var rest := keys;
    var any :| any in rest;
    least, greatest, rest := any, any, rest - {any};
    while rest != {}
      invariant rest <= keys && least in keys && greatest in keys
      invariant forall j | j in keys && j !in rest :: least <= j <= greatest
      decreases rest
    {
      var k :| k in rest;
      rest := rest - {k};
      least := if k < least then k else least;
      greatest := if k > greatest then k else greatest;
    }
  }

  // ---------------------------------------------------------------- reading any directory

  /** The index over some segments and the segments as the scan leaves them, or a refusal. */
  datatype Loaded = Loaded(segs: map<nat, seq<Byte>>, index: seq<FrameIndex>) | Rejected

  function InFront(index: seq<FrameIndex>, rest: Loaded): Loaded {
    if rest.Rejected? then Rejected else rest.(index := index + rest.index)
  }

  /** The scan of the segments `s..hi - 1` that are there, in order. */
  function ScanAll(segs: map<nat, seq<Byte>>, s: nat, hi: nat, skip: nat): (r: Loaded)
    requires s <= hi
    ensures r.Loaded? ==> r.segs.Keys == segs.Keys
    decreases hi - s
  {
    if s == hi then Loaded(segs, [])
    else if s !in segs then ScanAll(segs, s + 1, hi, 0)
    else
      var r := Scan(s, segs[s], 0, skip);
      if r.Refused? then Rejected else InFront(r.index, ScanAll(segs[s := r.file], s + 1, hi, 0))
  }

  /** The segments a checkpoint has not passed. */
  function Alive(dir: map<nat, seq<Byte>>, start: nat): map<nat, seq<Byte>> {
    map s | s in dir && s >= start :: dir[s]
  }

  ghost function Least(keys: set<nat>): (least: nat)
    requires keys != {}
    ensures least in keys && forall k | k in keys :: least <= k
    decreases |keys|
  {
    var k :| k in keys;
    if keys == {k} then k
    else
      var rest := Least(keys - {k});
      assert keys == keys - {k} + {k};
      if k < rest then k else rest
  }

  ghost function Greatest(keys: set<nat>): (greatest: nat)
    requires keys != {}
    ensures greatest in keys && forall k | k in keys :: k <= greatest
    decreases |keys|
  {
    var k :| k in keys;
    if keys == {k} then k
    else
      var rest := Greatest(keys - {k});
      assert keys == keys - {k} + {k};
      if k > rest then k else rest
  }

  /** What a directory with checkpoint `c` is read as. */
  ghost function LoadedFrom(dir: map<nat, seq<Byte>>, c: Checkpoint): Loaded {
    var alive := Alive(dir, c.segStart);
    if alive.Keys == {} then Loaded(map[], [])
    else ScanAll(alive, c.segStart, Greatest(alive.Keys) + 1, c.ackedBytes)
  }

  /** The checkpoint to go on from: if its segment is gone, the oldest one left, from its start. */
  ghost function Resumed(dir: map<nat, seq<Byte>>, c: Checkpoint): (r: Checkpoint)
    ensures r == c.(segStart := r.segStart, ackedBytes := r.ackedBytes)
  {
    var alive := Alive(dir, c.segStart);
    if alive.Keys == {} then c.(ackedBytes := 0)
    else if c.segStart in alive then c
    else c.(segStart := Least(alive.Keys), ackedBytes := 0)
  }

  ghost function NewestOf(dir: map<nat, seq<Byte>>, c: Checkpoint): nat {
    var alive := Alive(dir, c.segStart);
    if alive.Keys == {} then c.segStart else Greatest(alive.Keys)
  }

  function MaxSeq(index: seq<FrameIndex>): (greatest: nat)
    ensures forall e | e in index :: e.seqNo <= greatest
    ensures index == [] ==> greatest == 0
    ensures index != [] ==> exists e :: e in index && e.seqNo == greatest
  {
    if index == [] then 0
    else
      var n := |index| - 1;
      var before := MaxSeq(index[..n]);
      if index[n].seqNo > before then index[n].seqNo else before
  }

  /** Segments that are not there make no difference. */
  lemma {:induction false} ScanAllFrom(segs: map<nat, seq<Byte>>, s: nat, first: nat, hi: nat, skip: nat)
    requires s <= first <= hi && forall k | k in segs :: k >= first
    ensures ScanAll(segs, s, hi, skip) == ScanAll(segs, first, hi, if s == first then skip else 0)
    decreases first - s
  {
    if s < first {
      ScanAllFrom(segs, s + 1, first, hi, 0);
    }
  }

  /** Rebuilds the index, segment by segment. */
  method ScanSegments(dir: map<nat, seq<Byte>>, lo: nat, hi: nat, skip: nat) returns (r: Loaded)
    requires lo <= hi
    ensures r == ScanAll(dir, lo, hi, skip)
  {
    hide Scan;
    var segs: map<nat, seq<Byte>>, index: seq<FrameIndex> := dir, [];
    for s := lo to hi
      invariant ScanAll(dir, lo, hi, skip) == InFront(index, ScanAll(segs, s, hi, if s == lo then skip else 0))
    {
      if s in segs {
        var scanned := IndexSegment(s, segs[s], if s == lo then skip else 0);
        if scanned.Refused? {
          return Rejected;
        }
        index := index + scanned.index;
        segs := segs[s := scanned.file];
      }
    }
    r := Loaded(segs, index);
  }

  /** The segments of a durable directory are cut to their whole records from `lo` up to `s`. */
  ghost predicate CutUpTo(segs: map<nat, seq<Byte>>, dir: map<nat, seq<Byte>>, fs: Files, lo: nat, hi: nat, s: nat) {
    && segs.Keys == dir.Keys && (forall k: nat | lo <= k < hi :: k in dir && k in fs)
    && (forall k: nat | lo <= k < hi && k < s :: segs[k] == Segment(fs[k]))
    && (forall k: nat | lo <= k < hi && s <= k :: segs[k] == dir[k])
  }

  lemma CutNext(segs: map<nat, seq<Byte>>, dir: map<nat, seq<Byte>>, fs: Files, lo: nat, hi: nat, s: nat)
    requires CutUpTo(segs, dir, fs, lo, hi, s) && lo <= s < hi
    ensures s in segs && segs[s] == dir[s] && s in fs
    ensures CutUpTo(segs[s := Segment(fs[s])], dir, fs, lo, hi, s + 1)
  {
    hide Segment;
  }

  /** The scan of a durable directory behind its oldest segment. */
  lemma {:induction false} ScanRest(
    dir: map<nat, seq<Byte>>, file: Checkpoint, fs: Files, lo: nat, hi: nat, tail: seq<Byte>, log: seq<FrameBytes>,
    pending: nat, segs: map<nat, seq<Byte>>, s: nat)
    requires Durable(dir, file, fs, lo, hi, tail, log, pending) && lo < s <= hi && CutUpTo(segs, dir, fs, lo, hi, s)
    ensures Covered(fs, s, hi)
    ensures var r := ScanAll(segs, s, hi, 0);
            r.Loaded? && r.index == EntriesOf(fs, s, hi) && CutUpTo(r.segs, dir, fs, lo, hi, hi)
    decreases hi - s
  {
    hide WellFormed, SeqOf, EntryAt, FramesOf, Scan, Unacked, Entries, Segment, Numbered, Durable, CutUpTo, SkipOf;
    DurableRange(dir, file, fs, lo, hi, tail, log, pending);
    if s < hi {
      CutNext(segs, dir, fs, lo, hi, s);
      ScanOfDurable(dir, file, fs, lo, hi, tail, log, pending, s);
      ScanRest(dir, file, fs, lo, hi, tail, log, pending, segs[s := Segment(fs[s])], s + 1);
    }
  }

  lemma ScanDurable(
    dir: map<nat, seq<Byte>>, file: Checkpoint, fs: Files, lo: nat, hi: nat, tail: seq<Byte>, log: seq<FrameBytes>,
    pending: nat)
    requires Durable(dir, file, fs, lo, hi, tail, log, pending) && lo < hi
    ensures Covered(fs, lo, hi)
    ensures var r := ScanAll(dir, lo, hi, SkipOf(file, lo));
            && r.Loaded? && r.index == Rescan(fs, SkipOf(file, lo), lo, hi) && CutUpTo(r.segs, dir, fs, lo, hi, hi)
  {
    hide WellFormed, SeqOf, EntryAt, FramesOf, Scan, Unacked, Entries, Segment, Numbered, Durable, EntriesOf, SkipOf;
    DurableRange(dir, file, fs, lo, hi, tail, log, pending);
    CutNext(dir, dir, fs, lo, hi, lo);
    ScanOfDurable(dir, file, fs, lo, hi, tail, log, pending, lo);
    ScanRest(dir, file, fs, lo, hi, tail, log, pending, dir[lo := Segment(fs[lo])], lo + 1);
  }

  lemma DurableCut(
    dir: map<nat, seq<Byte>>, segs: map<nat, seq<Byte>>, file: Checkpoint, fs: Files, lo: nat, hi: nat, tail: seq<Byte>,
    log: seq<FrameBytes>, pending: nat)
    requires Durable(dir, file, fs, lo, hi, tail, log, pending) && CutUpTo(segs, dir, fs, lo, hi, hi)
    ensures Durable(segs, file, fs, lo, hi, [], log, pending)
  {
    hide WellFormed, SeqOf, EntryAt, FramesOf, Segment, Numbered, Rescan, IsSuffix, SkipOf, EntriesOf;
  }

  /** The unacknowledged records of a durable directory are found, and what is torn is cut. */
  lemma LoadedDurable(
    dir: map<nat, seq<Byte>>, file: Checkpoint, fs: Files, lo: nat, hi: nat, tail: seq<Byte>, log: seq<FrameBytes>,
    pending: nat)
    requires Durable(dir, file, fs, lo, hi, tail, log, pending) && lo < hi
    ensures var l := LoadedFrom(dir, file);
            && l.Loaded? && l.index == Rescan(fs, SkipOf(file, lo), lo, hi)
            && Durable(l.segs, file, fs, lo, hi, [], log, pending)
    ensures Resumed(dir, file) == file.(segStart := lo, ackedBytes := SkipOf(file, lo)) && NewestOf(dir, file) == hi - 1
  {
    hide WellFormed, SeqOf, EntryAt, FramesOf, Segment, Numbered, Rescan, ScanAll, Durable, CutUpTo;
    DurableRange(dir, file, fs, lo, hi, tail, log, pending);
    assert Alive(dir, file.segStart) == dir && lo in dir && hi - 1 in dir;
    ScanAllFrom(dir, file.segStart, lo, hi, file.ackedBytes);
    ScanDurable(dir, file, fs, lo, hi, tail, log, pending);
    DurableCut(dir, ScanAll(dir, lo, hi, SkipOf(file, lo)).segs, file, fs, lo, hi, tail, log, pending);
  }

  lemma LoadedEmpty(
    dir: map<nat, seq<Byte>>, file: Checkpoint, fs: Files, lo: nat, tail: seq<Byte>, log: seq<FrameBytes>, pending: nat)
    requires Durable(dir, file, fs, lo, lo, tail, log, pending)
    ensures LoadedFrom(dir, file) == Loaded(map[], [])
    ensures Resumed(dir, file) == file.(ackedBytes := 0) && NewestOf(dir, file) == file.segStart
  {
    assert dir == map[];
  }

  /** Reads the bytes of each entry, as far as the files hold them. */
  method ReadEntries(segs: map<nat, seq<Byte>>, entries: seq<FrameIndex>) returns (r: Outcome<seq<FrameData>>)
    ensures r == ReadAll(segs, entries)
  {
    hide ReadAll, Holds;
    ReadNothing(segs);
    var out: seq<FrameData> := [];
    assert entries[..0] == [];
    for i := 0 to |entries|
      invariant ReadAll(segs, entries[..i]) == Done(out)
    {
      var e := entries[i];
      ReadAllStep(segs, entries, i);
      HoldsIs(segs, e);
      if e.seg !in segs || e.offset + RECORD_HEAD + e.length > |segs[e.seg]| {
        return Failed(ReadFailed);
      }
      out := out + [FrameData(e.seqNo, segs[e.seg][e.offset + RECORD_HEAD..e.offset + RECORD_HEAD + e.length])];
    }
    assert entries[..|entries|] == entries;
    r := Done(out);
  }

  /** No segment is newer than the one that is open. */
  lemma LoadedInPlace(dir: map<nat, seq<Byte>>, file: Checkpoint)
    ensures LoadedFrom(dir, file).Loaded? ==> forall s | s in LoadedFrom(dir, file).segs :: s <= NewestOf(dir, file)
  {
    hide ScanAll;
  }

  lemma DurableLoads(
    dir: map<nat, seq<Byte>>, file: Checkpoint, fs: Files, lo: nat, hi: nat, tail: seq<Byte>, log: seq<FrameBytes>,
    pending: nat)
    requires Durable(dir, file, fs, lo, hi, tail, log, pending)
    ensures LoadedFrom(dir, file).Loaded?
    ensures if lo < hi then NewestOf(dir, file) in LoadedFrom(dir, file).segs
            else LoadedFrom(dir, file).segs == map[] && NewestOf(dir, file) == file.segStart
  {
    if lo < hi {
      LoadedDurable(dir, file, fs, lo, hi, tail, log, pending);
    } else {
      LoadedEmpty(dir, file, fs, lo, tail, log, pending);
    }
  }

  lemma MaxSeqIs(index: seq<FrameIndex>, last: nat)
    requires index != [] ==> index[|index| - 1].seqNo == last
    requires forall k | 0 <= k < |index| :: index[k].seqNo <= last
    ensures MaxSeq(index) == if index == [] then 0 else last
  {
  }

  class Wal {
    const segSize: nat
    // what a crash leaves: the segment files and the checkpoint file
    var segs: map<nat, seq<Byte>>
    var saved: Checkpoint
    // what a crash loses
    var cp: Checkpoint
    var index: seq<FrameIndex>
    var acked: nat
    var curSeg: nat
    var curOpen: bool
    var curOffset: nat
    // the checkpoint file predates the backfill policy field
    var legacy: bool

    ghost var files: Files
    ghost var log: seq<FrameBytes>

    function Phys(): Store
      reads this
    {
      Store(segs, index, curSeg, curOpen, curOffset)
    }

    /** How many frames wait for their ACK. */
    function Pending(): nat
      reads this
    {
      if acked <= |index| then |index| - acked else 0
    }

    /** One past the newest segment. */
    function End(): nat
      reads this
    {
      if curOpen then curSeg + 1 else curSeg
    }

    /** How many frames a reopened WAL would have to send. */
    ghost function Resent(): nat
      reads this
      requires Covered(files, cp.segStart, End())
    {
      |Rescan(files, SkipOf(saved, cp.segStart), cp.segStart, End())|
    }

    /** The index covers the segments and the acknowledged position is not behind the saved one. */
    ghost predicate Settled()
      reads this
    {
      && acked <= |index|
      && Coherent(segs, saved, files, cp.segStart, End(), log, index, Pending(), cp.ackedBytes)
      && |Rescan(files, cp.ackedBytes, cp.segStart, End())| <= Resent()
      && cp.segStart <= curSeg && (!curOpen ==> cp.segStart == curSeg)
      && (curOpen ==> curSeg in segs && curOffset == |segs[curSeg]|)
    }

    /** Everything but the numbering of future frames. */
    ghost predicate Consistent()
      reads this
    {
      && Settled()
      && (!curOpen ==> saved.ackedBytes == 0)
      && saved.cursorNs == cp.cursorNs && saved.backfillNs == cp.backfillNs
    }

    /** The next append continues the log, now and after any crash. */
    ghost predicate Numbering()
      reads this
      requires Consistent()
    {
      && cp.nextSeq == |log| + 1
      && (Resent() == 0 ==> NextOf(saved) == |log| + 1)
    }

    ghost predicate Valid()
      reads this
      ensures Valid() ==> Consistent()
    {
      Consistent() && Numbering()
    }

    /** A crash now leaves a directory from which Open continues the log. `tail` is what a half-done
        append has written. */
    ghost predicate CrashSafe(tail: seq<Byte>)
      reads this
    {
      && Covered(files, cp.segStart, End())
      && Durable(segs, saved, files, cp.segStart, End(), tail, log, Pending())
      && ReopensWell(saved, cp.segStart, End(), |log|, Resent())
    }

    lemma ValidIsCrashSafe()
      requires Valid()
      ensures CrashSafe([])
    {
      hide Durable, Rescan, FramesOf, EntriesOf, Segment, WellFormed;
    }

    /** The queue this WAL stands for. */
    ghost function Abs(): Q.Queue<FrameBytes>
      reads this
      requires Consistent()
    {
      Q.Queue(log, |log| - Pending(), |log| - Resent())
    }

    constructor Unopened(file: Checkpoint, size: nat, noBackfillField: bool, ghost fs: Files,
                         ghost appended: seq<FrameBytes>)
      ensures segSize == size && saved == cp == file && legacy == noBackfillField
      ensures files == fs && log == appended && segs == map[] && index == [] && acked == 0 && !curOpen
    {
      segSize, saved, cp, legacy := size, file, file, noBackfillField;
      files, log := fs, appended;
      segs, index, acked := map[], [], 0;
      curSeg, curOpen, curOffset := 0, false, 0;
    }

    /** What opening makes of any directory: the segments the checkpoint has not passed, cut where a scan cuts
        them, all entries it finds, the newest segment open for appending, and a next seq that is neither
        behind the checkpoint nor behind any entry. */
    ghost predicate OpenedFrom(dir: map<nat, seq<Byte>>, file: Checkpoint)
      reads this
    {
      var l := LoadedFrom(dir, file);
      && l.Loaded? && acked == 0 && saved == file && curOpen && curSeg == NewestOf(dir, file)
      && segs == (if curSeg in l.segs then l.segs else l.segs[curSeg := []]) && curSeg in segs
      && curOffset == |segs[curSeg]| && index == l.index
      && cp == Resumed(dir, file).(nextSeq := if file.nextSeq < MaxSeq(index) + 1 then MaxSeq(index) + 1
                                              else file.nextSeq)
    }

    /** What opening makes of a directory that holds the given frames: it continues the log, with every frame
        that was pending, exactly if the directory tells where the log ends. */
    ghost predicate Continues(
      dir: map<nat, seq<Byte>>, file: Checkpoint, fs: Files, lo: nat, hi: nat, tail: seq<Byte>,
      appended: seq<FrameBytes>, pending: nat)
      requires Durable(dir, file, fs, lo, hi, tail, appended, pending)
      reads this
    {
      var found := Rescan(fs, SkipOf(file, lo), lo, hi);
      && (Valid() <==> ReopensWell(file, lo, hi, |appended|, |found|))
      && (lo < hi || file.ackedBytes == 0 ==>
            && Consistent() && Pending() >= pending
            && Abs().head == Abs().saved == |log| - |found|)
      && cp.nextSeq == (if |found| > 0 then |appended| + 1 else NextOf(file))
      && index == found && log == appended && (lo < hi && tail == [] ==> segs == dir)
      && (lo == hi ==>
            && Phys() == Store(map[file.segStart := []], [], file.segStart, true, 0)
            && files == map[file.segStart := []] && cp == file.(ackedBytes := 0, nextSeq := NextOf(file)))
    }

    /** Opens a WAL directory: drops stale segments, rebuilds the index from the checkpoint on, and
        continues in the newest segment; corruption before the acknowledged offset is an error. The ghost
        arguments say which frames the directory holds. */
    static method Open(dir: map<nat, seq<Byte>>, file: Checkpoint, size: nat, noBackfillField: bool,
                       ghost fs: Files, ghost lo: nat, ghost hi: nat, ghost tail: seq<Byte>,
                       ghost appended: seq<FrameBytes>, ghost pending: nat)
      returns (r: Outcome<Wal>)
      ensures r.Failed? ==> r.error == Corrupted
      ensures r.Done? <==> LoadedFrom(dir, file).Loaded?
      ensures r.Done? ==>
                && fresh(r.value) && r.value.OpenedFrom(dir, file) && WellPlaced(r.value.Phys())
                && r.value.segSize == size && r.value.legacy == noBackfillField
      ensures Durable(dir, file, fs, lo, hi, tail, appended, pending) ==>
                r.Done? && r.value.Continues(dir, file, fs, lo, hi, tail, appended, pending)
    {
      hide Durable, Rescan, Coherent, FramesOf, EntriesOf, Segment, WellFormed, Numbered;
      hide IsSuffix, SkipOf, Covered, LoadedFrom, Resumed, NewestOf, MaxSeq, Wal.Continues;
      var w := new Wal.Unopened(file, size, noBackfillField, if lo < hi then fs else map[], appended);
      var ok := w.LoadSegments(dir);
      if Durable(dir, file, fs, lo, hi, tail, appended, pending) {
        DurableLoads(dir, file, fs, lo, hi, tail, appended, pending);
      }
      if !ok {
        return Failed(Corrupted);
      }
      w.RestoreNextSeq();
      w.OpenCurrent();
      assert w.OpenedFrom(dir, file);
      LoadedInPlace(dir, file);
      if Durable(dir, file, fs, lo, hi, tail, appended, pending) {
        w.OpenedContinues(dir, file, fs, lo, hi, tail, appended, pending);
      }
      r := Done(w);
    }

    lemma OpenedContinues(
      dir: map<nat, seq<Byte>>, file: Checkpoint, fs: Files, lo: nat, hi: nat, tail: seq<Byte>,
      appended: seq<FrameBytes>, pending: nat)
      requires Durable(dir, file, fs, lo, hi, tail, appended, pending) && OpenedFrom(dir, file) && log == appended
      requires files == if lo < hi then fs else map[file.segStart := []]
      ensures Continues(dir, file, fs, lo, hi, tail, appended, pending)
    {
      hide Consistent, Numbering, Durable, Rescan, Coherent, FramesOf, EntriesOf, Segment, WellFormed, Numbered;
      hide Resent, IsSuffix, Valid, Abs, SkipOf, Covered, LoadedFrom, Resumed, NewestOf, MaxSeq;
      DurableRange(dir, file, fs, lo, hi, tail, appended, pending);
      DurableFewest(dir, file, fs, lo, hi, tail, appended, pending);
      NumberedOf(dir, file, fs, lo, hi, tail, appended, pending);
      var l := LoadedFrom(dir, file);
      if lo < hi {
        LoadedDurable(dir, file, fs, lo, hi, tail, appended, pending);
        IndexIs(dir, l.segs, file, fs, lo, hi, tail, appended, pending);
        CoherentHasNewest(l.segs, file, fs, lo, hi, log, index, cp.ackedBytes);
        MaxSeqIs(index, |log|);
        OpenedSegments(file, fs, lo, hi);
      } else {
        LoadedEmpty(dir, file, fs, lo, tail, appended, pending);
        MaxSeqIs(index, |log|);
        OpenedEmpty(file);
      }
    }

    lemma OpenedSegments(file: Checkpoint, fs: Files, lo: nat, hi: nat)
      requires lo < hi && curOpen && curSeg == hi - 1 && curSeg in segs && curOffset == |segs[curSeg]| && acked == 0
      requires files == fs && saved == file && cp.segStart == lo && cp.ackedBytes == SkipOf(file, lo)
      requires Coherent(segs, saved, files, lo, hi, log, index, |index|, cp.ackedBytes)
      requires index == Rescan(fs, SkipOf(file, lo), lo, hi)
      requires cp == file.(segStart := lo, ackedBytes := SkipOf(file, lo), nextSeq := cp.nextSeq)
      requires cp.nextSeq == if |index| > 0 then |log| + 1 else NextOf(file)
      ensures Consistent() && Abs().head == Abs().saved == |log| - |index|
      ensures Valid() <==> (|index| > 0 || NextOf(file) == |log| + 1)
    {
      hide Durable, Rescan, FramesOf, EntriesOf, Segment;
    }

    lemma OpenedEmpty(file: Checkpoint)
      requires curOpen && curSeg == cp.segStart && curOffset == 0 && acked == 0 && index == []
      requires segs == map[curSeg := []] && files == map[curSeg := []] && saved == file && Numbered(log)
      requires cp == file.(ackedBytes := 0, nextSeq := NextOf(file)) && file.nextSeq <= |log| + 1
      ensures file.ackedBytes == 0 ==> Consistent() && Abs().head == Abs().saved == |log|
      ensures Valid() <==> (file.ackedBytes == 0 && NextOf(file) == |log| + 1)
    {
      hide WellFormed, SeqOf, EntryAt;
      assert EntriesOf(files, curSeg, curSeg + 1) == [] && FramesOf(files, curSeg, curSeg + 1) == [];
      assert Rescan(files, 0, curSeg, curSeg + 1) == [];
      assert IsSuffix([], log);
    }

    /** scanSegments and the choice of the current segment. */
    method LoadSegments(dir: map<nat, seq<Byte>>) returns (ok: bool)
      requires segs == map[] && index == []
      modifies this`segs, this`index, this`cp, this`curSeg
      ensures ok <==> LoadedFrom(dir, old(cp)).Loaded?
      ensures ok ==>
                && LoadedFrom(dir, old(cp)) == Loaded(segs, index) && cp == Resumed(dir, old(cp))
                && curSeg == NewestOf(dir, old(cp))
    {
      hide ScanAll;
      var alive := map s | s in dir && s >= cp.segStart :: dir[s];
      assert alive == Alive(dir, cp.segStart);
      if alive.Keys == {} {
        cp := cp.(ackedBytes := 0);
        curSeg := cp.segStart;
        ok := true;
      } else {
        var first, last := Extremes(alive.Keys);
        assert last == Greatest(alive.Keys) && first == Least(alive.Keys);
        ScanAllFrom(alive, cp.segStart, first, last + 1, cp.ackedBytes);
        if first > cp.segStart {
          cp := cp.(segStart := first, ackedBytes := 0);
        }
        var r := ScanSegments(alive, first, last + 1, cp.ackedBytes);
        ok := r.Loaded?;
        if ok {
          segs, index, curSeg := r.segs, r.index, last;
        }
      }
    }

    /** next_seq must not fall behind the checkpoint or any frame found. */
    method RestoreNextSeq()
      modifies this`cp
      ensures cp == old(cp).(nextSeq := if old(cp.nextSeq) < MaxSeq(index) + 1 then MaxSeq(index) + 1
                                        else old(cp.nextSeq))
    {
      var maxSeq := 0;
      for i := 0 to |index|
        invariant maxSeq == MaxSeq(index[..i])
      {
        assert index[..i + 1][..i] == index[..i];
        if index[i].seqNo > maxSeq {
          maxSeq := index[i].seqNo;
        }
      }
      assert index[..|index|] == index;
      if cp.nextSeq < maxSeq + 1 {
        cp := cp.(nextSeq := maxSeq + 1);
      }
    }

    /** Opens the current segment for appending, creating it if it does not exist. */
    method OpenCurrent()
      requires !curOpen
      modifies this`segs, this`files, this`curOpen, this`curOffset
      ensures curOpen && curSeg in segs && curOffset == |segs[curSeg]|
      ensures old(curSeg in segs) ==> segs == old(segs) && files == old(files)
      ensures old(curSeg !in segs) ==> segs == old(segs)[curSeg := []] && files == old(files)[curSeg := []]
    {
      if curSeg !in segs {
        Rotate();
      } else {
        curOpen, curOffset := true, |segs[curSeg]|;
      }
    }

    /** Creates the current segment file. */
    method Rotate()
      requires !curOpen && curSeg !in segs
      modifies this`segs, this`files, this`curOpen, this`curOffset
      ensures curOpen && curOffset == 0
      ensures segs == old(segs)[curSeg := []] && files == old(files)[curSeg := []]
    {
      segs, files := segs[curSeg := []], files[curSeg := []];
      curOpen, curOffset := true, 0;
    }

    /** Moves to a new segment when `need` bytes do not fit into the current one. */
    method EnsureSpace(need: nat)
      requires WellPlaced(Phys())
      modifies this`segs, this`files, this`curSeg, this`curOpen, this`curOffset
      ensures WellPlaced(Phys()) && curOpen && Phys() == SpaceMade(old(Phys()), need, segSize)
      ensures curSeg !in old(segs) <==> !old(curOpen) || old(curOffset) + need > segSize
      ensures curSeg in old(segs) ==> Phys() == old(Phys())
      ensures curSeg !in old(segs) ==>
                && curSeg == old(curSeg) + (if old(curOpen) then 1 else 0) && segs == old(segs)[curSeg := []]
                && index == old(index)
      ensures files == if curSeg == old(curSeg) && old(curOpen) then old(files) else old(files)[curSeg := []]
      ensures old(Valid()) ==> Valid() && Abs() == old(Abs()) && cp.segStart < End()
    {
      hide Durable, Rescan, FramesOf, EntriesOf, Segment;
      if curOpen && curOffset + need <= segSize {
        return;
      }
      if Valid() {
        CoherentRotate(segs, saved, files, cp.segStart, End(), log, index, Pending(), cp.ackedBytes);
        RescanOfRotated(files, cp.ackedBytes, cp.segStart, End());
        RescanOfRotated(files, SkipOf(saved, cp.segStart), cp.segStart, End());
      }
      if curOpen {
        curOpen, curSeg := false, curSeg + 1;
      }
      Rotate();
    }

    /** Writes one stamped frame: record head, then frame, each a write of its own. */
    method Write(f: FrameBytes, seqNo: nat, typ: Byte)
      requires WellPlaced(Phys()) && curOpen && seqNo == cp.nextSeq
      modifies this`segs, this`files, this`log, this`index, this`curOffset, this`cp
      ensures WrittenFrom(f, seqNo, typ)
      ensures old(Valid()) && Encodes(f, seqNo, typ) ==>
                Valid() && Abs() == Q.Appended(old(Abs()), [f])
    {
      hide Valid, WellFormed, SeqOf, CrashSafe, Abs, WellPlaced, WrittenAs, End, Pending;
      WriteRecord(f, seqNo, typ);
      cp := cp.(nextSeq := cp.nextSeq + 1);
      files, log := files[curSeg := (if curSeg in files then files[curSeg] else []) + [f]], log + [f];
      assert Phys() == WrittenAs(old(Phys()), f, seqNo, typ);
      assert files == old(files)[curSeg := (if curSeg in old(files) then old(files)[curSeg] else []) + [f]];
      assert log == old(log) + [f];
      assert cp == old(cp).(nextSeq := old(cp.nextSeq) + 1);
      assert saved == old(saved) && acked == old(acked);
      if old(Valid()) && Encodes(f, seqNo, typ) {
        WriteKeeps(f);
      }
    }

    /** The two writes of a record, and its entry. */
    method WriteRecord(f: FrameBytes, seqNo: nat, typ: Byte)
      requires WellPlaced(Phys()) && curOpen
      modifies this`segs, this`index, this`curOffset
      ensures Phys() == WrittenAs(old(Phys()), f, seqNo, typ)
    {
      hide Valid, CrashSafe, WellPlaced, WellFormed;
      PlacedOpen(Phys());
      WriteHead(|f|);
      segs := segs[curSeg := segs[curSeg] + f];
      HeadThenFrame(old(segs)[curSeg], f);
      index := index + [FrameIndex(curSeg, curOffset, |f|, seqNo, typ)];
      curOffset := curOffset + RECORD_HEAD + |f|;
    }

    /** The whole effect of a write. */
    twostate predicate WrittenFrom(f: FrameBytes, seqNo: nat, typ: Byte)
      requires old(WellPlaced(Phys()) && curOpen)
      reads this
    {
      && Phys() == WrittenAs(old(Phys()), f, seqNo, typ)
      && files == old(files)[curSeg := (if curSeg in old(files) then old(files)[curSeg] else []) + [f]]
      && log == old(log) + [f] && cp == old(cp).(nextSeq := old(cp.nextSeq) + 1)
      && saved == old(saved) && acked == old(acked)
    }

    twostate lemma WriteKeeps(f: FrameBytes)
      requires old(Valid()) && WellFormed(f) && SeqOf(f) == old(cp.nextSeq)
      requires old(WellPlaced(Phys()) && curOpen) && WrittenFrom(f, SeqOf(f), f[3])
      ensures Valid() && Abs() == Q.Appended(old(Abs()), [f])
    {
      hide WellFormed, SeqOf, Rescan, FramesOf, EntriesOf, Segment, Durable, SkipOf;
      CoherentAppend(old(segs), saved, old(files), old(cp.segStart), old(End()), old(log), old(index), old(Pending()),
                     old(cp.ackedBytes), f);
    }

    /** The first of the two writes of a record. A crash after it loses nothing. */
    method WriteHead(length: nat)
      requires curOpen && curSeg in segs
      modifies this`segs
      ensures segs == old(segs)[curSeg := old(segs)[curSeg] + ToBE(length, RECORD_HEAD)]
      ensures old(Valid()) ==> CrashSafe(ToBE(length, RECORD_HEAD))
    {
      hide Rescan, FramesOf, EntriesOf, Segment, WellFormed, Durable;
      if Valid() {
        DurableRange(segs, saved, files, cp.segStart, End(), [], log, Pending());
        DurableTorn(segs, saved, files, cp.segStart, End(), log, Pending(), ToBE(length, RECORD_HEAD));
      }
      segs := segs[curSeg := segs[curSeg] + ToBE(length, RECORD_HEAD)];
    }

    /** Appends frames in order, each stamped with the next seq. A frame shorter than a header stops
        the batch; the frames before it stay appended. Whether the frames are encodings is not checked; if
        they are, the WAL stays valid. */
    method AppendBatch(frames: seq<FrameBytes>) returns (r: Outcome<seq<nat>>)
      requires WellPlaced(Phys()) && cp.nextSeq + |frames| <= 0x1_0000_0000_0000_0000
      modifies this`segs, this`files, this`log, this`index, this`cp, this`curSeg, this`curOpen, this`curOffset
      ensures Phys() == AddedAll(old(Phys()), StampedFrom(LeadingFrames(frames), old(cp.nextSeq)), segSize)
      ensures log == old(log) + StampedFrom(LeadingFrames(frames), old(cp.nextSeq))
      ensures cp == old(cp).(nextSeq := old(cp.nextSeq) + |LeadingFrames(frames)|)
      ensures r == if LeadingFrames(frames) == frames then Done(SeqsFrom(old(cp.nextSeq), |frames|))
                   else Failed(FrameTooShort)
      ensures r.Done? ==> |r.value| == |frames| && forall k | 0 <= k < |frames| :: r.value[k] == old(cp.nextSeq) + k
      ensures r.Done? <==> forall f | f in frames :: |f| >= HEADER_SIZE
      ensures old(Valid()) && AllWellFormed(LeadingFrames(frames)) ==>
                Valid() && Abs() == Q.Appended(old(Abs()), StampedFrom(LeadingFrames(frames), old(cp.nextSeq)))
    {
      hide Valid, Abs, WellFormed, AllWellFormed, StampedFrom, LeadingFrames, AddedAll, WellPlaced, Grown;
      ghost var first, st, was, valid := cp.nextSeq, Phys(), log, Valid();
      ghost var q := if valid then Abs() else Q.Queue([], 0, 0);
      var seqs: seq<nat> := [];
      assert frames[..0] == [];
      NothingGrown();
      for i := 0 to |frames|
        invariant forall j | 0 <= j < i :: |frames[j]| >= HEADER_SIZE
        invariant WellPlaced(st) && Grown(st, was, q, valid, first, frames[..i])
        invariant cp == old(cp).(nextSeq := first + i)
        invariant |seqs| == i && forall k | 0 <= k < i :: seqs[k] == first + k
      {
        var f := frames[i];
        if |f| < HEADER_SIZE {
          LeadingIs(frames, i);
          assert |frames[..i]| != |frames|;
          GrownIs(st, was, q, valid, first, frames[..i]);
          return Failed(FrameTooShort);
        }
        seqs := seqs + [cp.nextSeq];
        AppendNext(f, st, was, q, valid, first, frames[..i]);
        assert frames[..i + 1] == frames[..i] + [f];
      }
      LeadingIs(frames, |frames|);
      assert frames[..|frames|] == frames;
      assert seqs == SeqsFrom(first, |frames|);
      GrownIs(st, was, q, valid, first, frames);
      r := Done(seqs);
    }

    /** `frames` were appended, stamped from `first` on, to a WAL in state `st` with the given log; if it was
        valid it stood for the queue `q`. */
    ghost predicate Grown(
      st: Store, was: seq<FrameBytes>, q: Q.Queue<FrameBytes>, valid: bool, first: nat, frames: seq<FrameBytes>)
      requires WellPlaced(st) && forall f | f in frames :: |f| >= HEADER_SIZE
      reads this
    {
      && Phys() == AddedAll(st, StampedFrom(frames, first), segSize)
      && log == was + StampedFrom(frames, first) && cp.nextSeq == first + |frames|
      && (valid && AllWellFormed(frames) ==> Valid() && Abs() == Q.Appended(q, StampedFrom(frames, first)))
    }

    lemma NothingGrown()
      requires WellPlaced(Phys())
      ensures Grown(Phys(), log, if Valid() then Abs() else Q.Queue([], 0, 0), Valid(), cp.nextSeq, [])
    {
      hide Valid, Abs;
      NothingAdded(Phys(), segSize, cp.nextSeq, log);
      if Valid() {
        assert Abs().log + [] == Abs().log;
      }
    }

    lemma GrownIs(
      st: Store, was: seq<FrameBytes>, q: Q.Queue<FrameBytes>, valid: bool, first: nat, frames: seq<FrameBytes>)
      requires WellPlaced(st) && (forall f | f in frames :: |f| >= HEADER_SIZE)
      requires Grown(st, was, q, valid, first, frames)
      ensures Phys() == AddedAll(st, StampedFrom(frames, first), segSize) && log == was + StampedFrom(frames, first)
      ensures valid && AllWellFormed(frames) ==> Valid() && Abs() == Q.Appended(q, StampedFrom(frames, first))
    {
    }

    method AppendNext(
      f: FrameBytes, ghost st: Store, ghost was: seq<FrameBytes>, ghost q: Q.Queue<FrameBytes>, ghost valid: bool,
      ghost first: nat, ghost before: seq<FrameBytes>)
      requires WellPlaced(st) && (forall g | g in before :: |g| >= HEADER_SIZE)
      requires Grown(st, was, q, valid, first, before)
      requires |f| >= HEADER_SIZE && cp.nextSeq < 0x1_0000_0000_0000_0000
      modifies this`segs, this`files, this`log, this`index, this`cp, this`curSeg, this`curOpen, this`curOffset
      ensures Grown(st, was, q, valid, first, before + [f]) && cp == old(cp).(nextSeq := old(cp.nextSeq) + 1)
    {
      hide Valid, Abs, WellFormed, AllWellFormed, StampedFrom, AddedAll, Added, WellPlaced;
      ghost var sent, new' := StampedFrom(before, first), Stamped(f, cp.nextSeq);
      AppendOne(f);
      StampedFromSnoc(before, f, first);
      OneAdded(st, sent, new', segSize);
      AllWellFormedSnoc(before, f);
      AppendedTwice(q, sent, [new']);
      assert was + (sent + [new']) == was + sent + [new'];
    }

    /** Appends one frame with the given seq and type; only the next seq is accepted. That the frame is an
        encoding with this seq and type is not checked; if it is, the WAL stays valid. */
    method AppendEncoded(typ: Byte, seqNo: nat, f: FrameBytes) returns (r: Outcome<()>)
      requires WellPlaced(Phys())
      modifies this`segs, this`files, this`log, this`index, this`cp, this`curSeg, this`curOpen, this`curOffset
      ensures r == if seqNo == old(cp.nextSeq) then Done(()) else Failed(OutOfOrder)
      ensures Phys() == (if r.Done? then WrittenAs(SpaceMade(old(Phys()), |f| + RECORD_HEAD, segSize), f, seqNo, typ)
                         else old(Phys()))
      ensures log == if r.Done? then old(log) + [f] else old(log)
      ensures cp == old(cp).(nextSeq := if r.Done? then seqNo + 1 else old(cp.nextSeq))
      ensures old(Valid()) && (r.Done? ==> Encodes(f, seqNo, typ)) ==>
                Valid() && Abs() == if r.Done? then Q.Appended(old(Abs()), [f]) else old(Abs())
    {
      hide Valid, Abs, Encodes, WellPlaced, WrittenAs, SpaceMade, End;
      if seqNo != cp.nextSeq {
        return Failed(OutOfOrder);
      }
      EnsureSpace(|f| + RECORD_HEAD);
      Write(f, seqNo, typ);
      return Done(());
    }

    /** The entries of up to `n` of the oldest uncommitted frames (of all of them if `n` is not positive). */
    function Oldest(n: int): seq<FrameIndex>
      reads this
    {
      if 0 < n < Pending() then index[acked..acked + n] else if acked <= |index| then index[acked..] else []
    }

    /** The `count` oldest uncommitted frames of the queue, with their seqs. */
    ghost predicate AtHead(frames: seq<FrameData>, count: nat)
      reads this
      requires Consistent()
    {
      |frames| == count && FramesFrom(frames, Abs().log, Abs().head)
    }

    /** Reads them; a read past the end of a file fails. */
    method PeekBatch(n: int) returns (r: Outcome<seq<FrameData>>)
      ensures r == if Pending() == 0 then Failed(Empty) else ReadAll(segs, Oldest(n))
      ensures Valid() && Pending() > 0 ==> r.Done? && AtHead(r.value, if 0 < n < Pending() then n else Pending())
    {
      hide Valid, Abs, Holds, ReadAll, AtHead;
      if Valid() && Pending() > 0 {
        OldestReads(n);
      }
      if acked >= |index| {
        return Failed(Empty);
      }
      var cnt := |index| - acked;
      if n > 0 && cnt > n {
        cnt := n;
      }
      assert index[acked..acked + cnt] == Oldest(n);
      r := ReadEntries(segs, index[acked..acked + cnt]);
    }

    /** A valid WAL can read what is pending. */
    lemma OldestReads(n: int)
      requires Valid() && Pending() > 0
      ensures var r := ReadAll(segs, Oldest(n));
              r.Done? && AtHead(r.value, if 0 < n < Pending() then n else Pending())
    {
      hide Valid, Abs, AllPoint, FramesFrom, ReadAll;
      EnoughPending();
      OldestPoints(n);
      ReadsFrames(segs, Oldest(n), Abs().log, Abs().head);
    }

    lemma OldestPoints(n: int)
      requires Valid() && Pending() > 0
      ensures |Oldest(n)| == (if 0 < n < Pending() then n else Pending())
      ensures AllPoint(segs, Oldest(n), Abs().log, Abs().head)
    {
      hide Valid, Abs, PointsAt, Oldest, Pending;
      OldestSize(n);
      forall i | 0 <= i < |Oldest(n)|
        ensures PointsAt(segs, Oldest(n)[i], Abs().log, Abs().head + i)
      {
        OldestAt(n, i);
        PendingReads(i);
      }
    }

    lemma OldestSize(n: int)
      ensures |Oldest(n)| == if 0 < n < Pending() then n else Pending()
    {
    }

    lemma OldestAt(n: int, i: nat)
      requires i < |Oldest(n)|
      ensures i < Pending() && acked + i < |index| && Oldest(n)[i] == index[acked + i]
    {
    }

    lemma EnoughPending()
      requires Valid()
      ensures Abs().head + Pending() == |Abs().log| && acked <= |index|
    {
      hide WellFormed, EntryAt, SeqOf, Durable, Rescan, FramesOf, EntriesOf, Segment;
    }

    lemma PendingReads(i: nat)
      requires Valid() && i < Pending() && acked + i < |index|
      ensures PointsAt(segs, index[acked + i], Abs().log, Abs().head + i)
    {
      hide WellFormed, EntryAt, SeqOf, Durable, Rescan, FramesOf, EntriesOf, Segment;
      LogIsNumbered();
      ReadsPending(segs, saved, files, cp.segStart, End(), log, index, Pending(), cp.ackedBytes, i);
    }

    /** The abstract queue is a queue: the saved position never passes the head. */
    lemma QueueIsValid()
      requires Consistent()
      ensures Q.Valid(Abs())
    {
      hide WellFormed, SeqOf, Segment, Rescan, FramesOf, EntriesOf;
    }

    lemma LogIsNumbered()
      requires Consistent()
      ensures forall k | 0 <= k < |log| :: SeqOf(log[k]) == k + 1
    {
    }

    /** Commits the oldest pending frame; any other seq is refused. `elapsed` says that the last
        checkpoint is older than the throttling interval. */
    method Commit(seqNo: nat, elapsed: bool) returns (r: CommitResult)
      requires Valid()
      modifies this`segs, this`files, this`index, this`acked, this`cp, this`saved
      modifies this`curSeg, this`curOpen, this`curOffset
      ensures Valid()
      ensures r == if old(Pending()) == 0 then Panicked
                   else if seqNo == old(Abs().head) + 1 then Committed else WrongSeq
      ensures Abs().log == old(Abs().log) && Abs().head == Q.Committed(old(Abs()), seqNo).head
      ensures !r.Committed? ==> Abs() == old(Abs())
      ensures old(Abs().saved) <= Abs().saved
      ensures cp == old(cp).(segStart := cp.segStart, ackedBytes := cp.ackedBytes)
      ensures !r.Committed? ==> segs == old(segs) && saved == old(saved) && cp == old(cp)
      ensures r.Committed? && Pending() > 0 ==> index[acked].seg == cp.segStart
      ensures r.Committed? ==>
                && acked <= |index| && index[acked..] == old(index[acked + 1..]) && End() == old(End())
                && cp.ackedBytes == if cp.segStart == old(cp.segStart) then EndOf(old(index[acked])) else 0
      ensures r.Committed? ==> saved == if elapsed || cp.segStart != old(cp.segStart) then cp else old(saved)
    {
      hide Durable, Committing, Rescan, FramesOf, EntriesOf, Covered, IsSuffix;
      if acked >= |index| {
        return Panicked;
      }
      OldestIs();
      if index[acked].seqNo != seqNo {
        return WrongSeq;
      }
      var removed := Retire();
      if removed || elapsed {
        Save();
      }
      return Committed;
    }

    /** Everything a commit does before it saves the checkpoint. A crash right after it continues the
        log unless the last pending frame was committed, its segment was the last that holds frames,
        and the saved checkpoint lags behind. */
    method Retire() returns (removed: bool)
      requires Valid() && Pending() > 0
      modifies this`segs, this`files, this`index, this`acked, this`cp, this`curSeg, this`curOpen, this`curOffset
      ensures Settled() && Pending() == old(Pending()) - 1 && cp.nextSeq == |log| + 1
      ensures cp == old(cp).(segStart := cp.segStart, ackedBytes := cp.ackedBytes)
      ensures Resent() <= old(Resent()) && (!removed ==> Valid() && Resent() == old(Resent()))
      ensures (removed <==> cp.segStart != old(cp.segStart)) && (Pending() > 0 ==> index[acked].seg == cp.segStart)
      ensures index[acked..] == old(index[acked + 1..]) && End() == old(End())
      ensures if removed then cp.ackedBytes == 0 else cp.ackedBytes == EndOf(old(index[acked]))
      ensures Pending() == 0 ==> cp.segStart == old(cp.segStart) + 1
      ensures CrashSafe([]) <==>
                || old(Pending()) > 1
                || old(index[acked].seg) != old(cp.segStart)
                || ((old(End()) > old(cp.segStart) + 1 || saved.ackedBytes == 0) && NextOf(saved) == |log| + 1)
    {
      hide Durable, Committing, Rescan, FramesOf, EntriesOf, Covered, IsSuffix, CrashSafe, Segment, WellFormed;
      DurableRange(segs, saved, files, cp.segStart, End(), [], log, Pending());
      if Pending() == 1 {
        LastFrame(segs, saved, files, cp.segStart, End(), log, index, cp.ackedBytes);
      }
      Acknowledge();
      removed := RemoveCommitted();
      SettledCrash();
    }

    lemma SettledCrash()
      requires Settled()
      ensures CrashSafe([]) <==> ReopensWell(saved, cp.segStart, End(), |log|, Resent())
      ensures Pending() > 0 ==> CrashSafe([])
    {
      hide WellFormed, EntryAt, SeqOf, Rescan, FramesOf, EntriesOf, Segment, Numbered, Durable;
      DurableFewest(segs, saved, files, cp.segStart, End(), [], log, Pending());
    }

    lemma NoSegments()
      requires Settled() && cp.segStart == End()
      ensures segs == map[] && Durable(segs, saved, files, cp.segStart, End(), [], log, Pending())
    {
      hide WellFormed, EntryAt, SeqOf, Rescan, FramesOf, EntriesOf, Segment, Numbered;
    }

    lemma OldestIs()
      requires Consistent() && Pending() > 0
      ensures Pending() <= |log| && index[acked].seqNo == |log| - Pending() + 1
    {
      hide WellFormed, EntryAt, SeqOf, Rescan, FramesOf, EntriesOf, Segment, Numbered, Durable;
      ReadsPending(segs, saved, files, cp.segStart, End(), log, index, Pending(), cp.ackedBytes, 0);
    }

    method Acknowledge()
      requires Consistent() && Pending() > 0
      modifies this`acked, this`cp
      ensures Committing() && acked == old(acked) + 1 && Pending() <= Resent()
      ensures cp == old(cp).(ackedBytes := EndOf(old(index[acked])))
    {
      hide WellFormed, EntryAt, SeqOf, Rescan, FramesOf, EntriesOf, Segment, Numbered, Durable;
      ghost var pending, lo, hi := Pending(), cp.segStart, End();
      OldestFirst(segs, saved, files, lo, hi, log, index, pending, cp.ackedBytes);
      DurableFewer(segs, saved, files, lo, hi, log, pending, pending - 1);
      var cur := index[acked];
      if cur.seg == lo {
        CommitKeeps(segs, saved, files, lo, hi, log, index, pending, cp.ackedBytes);
      }
      acked := acked + 1;
      cp := cp.(ackedBytes := cur.offset + RECORD_HEAD + cur.length);
    }

    /** Advances the query cursor. A cursor never moves back here. */
    method SetCursor(ts: int) returns (r: Outcome<()>)
      requires Valid()
      modifies this`cp, this`saved
      ensures Valid()
      ensures r == if ts < old(cp.cursorNs) then Failed(CursorRegress) else Done(())
      ensures cp == old(cp).(cursorNs := if r.Done? then ts else old(cp.cursorNs))
      ensures saved == if r.Done? then cp else old(saved)
      ensures Abs() == old(Abs()).(saved := Abs().saved) && old(Abs().saved) <= Abs().saved
    {
      if ts < cp.cursorNs {
        return Failed(CursorRegress);
      }
      Checkpointed(cp.(cursorNs := ts));
      return Done(());
    }

    /** Records the backfill policy. This is the only way the cursor can move back: to `boundary`, when
        the recorded policy changes to one that asks for older data. */
    method ApplyBackfillPolicy(policy: int, boundary: int) returns (rewound: bool)
      requires Valid()
      modifies this`cp, this`saved, this`legacy
      ensures Valid() && !legacy
      ensures rewound <==> !old(legacy) && policy !in {old(cp.backfillNs), BACKFILL_NONE}
                           && 0 < boundary < old(cp.cursorNs)
      ensures cp == old(cp).(cursorNs := if rewound then boundary else old(cp.cursorNs), backfillNs := policy)
      ensures Abs() == old(Abs()).(saved := Abs().saved) && old(Abs().saved) <= Abs().saved
    {
      hide WellFormed, EntryAt, SeqOf, Rescan, FramesOf, EntriesOf, Segment, Numbered, Durable, SkipOf, IsSuffix;
      hide Coherent;
      if legacy {
        legacy := false;
        Checkpointed(cp.(backfillNs := policy));
        return false;
      }
      if cp.backfillNs == policy {
        return false;
      }
      rewound := policy != BACKFILL_NONE && 0 < boundary < cp.cursorNs;
      Checkpointed(cp.(cursorNs := if rewound then boundary else cp.cursorNs, backfillNs := policy));
    }

    /** Replaces the position-independent fields of the checkpoint and persists it. */
    method Checkpointed(c: Checkpoint)
      requires Valid() && c == cp.(cursorNs := c.cursorNs, backfillNs := c.backfillNs)
      modifies this`cp, this`saved
      ensures Valid() && cp == c && saved == c
      ensures Abs() == old(Abs()).(saved := Abs().saved) && old(Abs().saved) <= Abs().saved
    {
      hide WellFormed, EntryAt, SeqOf, Rescan, FramesOf, EntriesOf, Segment, Numbered, Durable, SkipOf, IsSuffix;
      cp := c;
      Save();
    }

    /** What a process that dies now leaves behind, reopened. */
    method Restart(ghost tail: seq<Byte>) returns (v: Wal)
      requires CrashSafe(tail)
      ensures fresh(v) && v.Valid()
      ensures v.log == log && v.Abs().head == v.Abs().saved == |log| - Resent() && v.Pending() >= Pending()
      ensures v.cp.cursorNs == saved.cursorNs
      ensures v.cp.nextSeq == |log| + 1
    {
      hide Durable, Rescan, FramesOf, EntriesOf, Segment, WellFormed;
      var r := Open(segs, saved, segSize, false, files, cp.segStart, End(), tail, log, Pending());
      v := r.value;
    }

    /** Persists the checkpoint. */
    method Save()
      requires Settled() && cp.nextSeq <= |log| + 1
      modifies this`saved
      ensures Settled() && saved == cp && Resent() <= old(Resent())
    {
      hide WellFormed, EntryAt, SeqOf, Rescan, FramesOf, EntriesOf, Segment, Numbered, Durable, SkipOf, IsSuffix;
      CoherentSaved(segs, saved, files, cp.segStart, End(), log, index, Pending(), cp);
      SkipsAcked(cp);
      saved := cp;
    }

    /** Between acknowledging a frame and saving the checkpoint. */
    ghost predicate Committing()
      reads this
    {
      && acked <= |index| && index != []
      && curOpen && cp.segStart <= curSeg && curSeg in segs && curOffset == |segs[curSeg]|
      && Covered(files, cp.segStart, End())
      && Durable(segs, saved, files, cp.segStart, End(), [], log, Pending())
      && IsSuffix(index, EntriesOf(files, cp.segStart, End()))
      && (acked < |index| && index[acked].seg == cp.segStart ==>
            && Coherent(segs, saved, files, cp.segStart, End(), log, index, Pending(), cp.ackedBytes)
            && |Rescan(files, cp.ackedBytes, cp.segStart, End())| <= Resent())
    }

    /** Removes the oldest segment, which holds no pending frame. */
    method RemoveSegment()
      requires Committing() && (acked >= |index| || index[acked].seg != cp.segStart)
      modifies this`segs, this`files, this`index, this`acked, this`cp, this`curSeg, this`curOpen, this`curOffset
      ensures Settled() && Pending() == old(Pending()) && acked == 0
      ensures cp == old(cp).(segStart := old(cp.segStart) + 1, ackedBytes := 0)
      ensures End() == old(End()) && files == old(files) - {old(cp.segStart)}
      ensures index != [] ==> Committing()
      ensures index[acked..] == old(index[acked..])
      ensures Resent() <= old(Resent())
    {
      hide WellFormed, EntryAt, SeqOf, Rescan, FramesOf, EntriesOf, Segment, Numbered, Durable, IsSuffix, SkipOf;
      hide Coherent;
      CommitRemoves(segs, saved, files, cp.segStart, End(), log, index, Pending());
      RestIsRescanned(files, SkipOf(saved, cp.segStart), cp.segStart, End());
      var oldest := cp.segStart;
      segs, files := segs - {oldest}, files - {oldest};
      cp := cp.(segStart := oldest + 1, ackedBytes := 0);
      index, acked := index[acked..], 0;
      if oldest == curSeg {
        curOpen, curSeg, curOffset := false, curSeg + 1, 0;
      }
    }

    /** Removes the oldest segments while none of their frames is pending. */
    method RemoveCommitted() returns (removed: bool)
      requires Committing()
      modifies this`segs, this`files, this`index, this`acked, this`cp, this`curSeg, this`curOpen, this`curOffset
      ensures Settled() && Pending() == old(Pending()) && End() == old(End())
      ensures cp == old(cp).(segStart := cp.segStart, ackedBytes := cp.ackedBytes)
      ensures (removed <==> cp.segStart != old(cp.segStart)) && (removed ==> cp.ackedBytes == 0)
      ensures Pending() > 0 ==> index[acked].seg == cp.segStart
      ensures Pending() == 0 ==> cp.segStart == old(cp.segStart) + 1 && files == old(files) - {old(cp.segStart)}
      ensures index[acked..] == old(index[acked..])
      ensures !removed ==> segs == old(segs) && files == old(files) && index == old(index) && acked == old(acked)
                           && cp == old(cp) && curSeg == old(curSeg) && curOpen == old(curOpen)
                           && acked < |index| && index[acked].seg == cp.segStart
      ensures Resent() <= old(Resent())
    {
      hide WellFormed, EntryAt, SeqOf, Rescan, FramesOf, EntriesOf, Segment, Numbered, Durable, Coherent;
      removed := false;
      while acked >= |index| || index[acked].seg != cp.segStart
        invariant Committing() && Pending() == old(Pending()) && End() == old(End())
        invariant if removed then Pending() > 0 && cp.ackedBytes == 0 && cp.segStart > old(cp.segStart)
                  else cp == old(cp)
        invariant cp == old(cp).(segStart := cp.segStart, ackedBytes := cp.ackedBytes)
        invariant index[acked..] == old(index[acked..])
        invariant !removed ==> segs == old(segs) && files == old(files) && index == old(index) && acked == old(acked)
                               && cp == old(cp) && curSeg == old(curSeg) && curOpen == old(curOpen)
        invariant Resent() <= old(Resent())
        decreases End() - cp.segStart
      {
        RemoveSegment();
        removed := true;
        if |index| == 0 {
          break;
        }
      }
    }

    method AppendOne(f: FrameBytes)
      requires WellPlaced(Phys()) && |f| >= HEADER_SIZE && cp.nextSeq < 0x1_0000_0000_0000_0000
      modifies this`segs, this`files, this`log, this`index, this`cp, this`curSeg, this`curOpen, this`curOffset
      ensures Phys() == Added(old(Phys()), Stamped(f, old(cp.nextSeq)), segSize)
      ensures var before := if old(curOpen) && curSeg == old(curSeg) && curSeg in old(files) then old(files)[curSeg]
                            else [];
              files == old(files)[curSeg := before + [Stamped(f, old(cp.nextSeq))]]
      ensures log == old(log) + [Stamped(f, old(cp.nextSeq))]
      ensures cp == old(cp).(nextSeq := old(cp.nextSeq) + 1)
      ensures old(Valid()) && WellFormed(f) ==>
                Valid() && Abs() == Q.Appended(old(Abs()), [Stamped(f, old(cp.nextSeq))])
    {
      hide Valid, Abs, WellFormed, SeqOf, WellPlaced, WrittenAs, SpaceMade, End, Stamped, Encodes;
      StampedWellFormed(f, cp.nextSeq);
      var stamped := Stamped(f, cp.nextSeq);
      EnsureSpace(|f| + RECORD_HEAD);
      Write(stamped, cp.nextSeq, stamped[3]);
      assert Phys() == Added(old(Phys()), Stamped(f, old(cp.nextSeq)), segSize);
      assert log == old(log) + [Stamped(f, old(cp.nextSeq))];
      assert cp == old(cp).(nextSeq := old(cp.nextSeq) + 1);
    }
  }

  // ---------------------------------------------------------------- three runs that go wrong

  const SEGMENT: nat := 0x400_0000

  /** A WAL in an empty directory. */
  method NewWal() returns (w: Wal)
    ensures fresh(w) && w.Valid() && w.log == [] && w.acked == 0 && w.segSize == SEGMENT
    ensures w.Phys() == NewSegment(0) && w.saved == NO_CHECKPOINT && w.cp == NO_CHECKPOINT.(nextSeq := 1)
  {
    hide Stamped, Wal.Valid, Wal.CrashSafe, Durable, Rescan, WellFormed, SeqOf, EntryAt;
    EmptyDirectory();
    var r := Wal.Open(map[], NO_CHECKPOINT, SEGMENT, false, map[], 0, 0, [], [], 0);
    w := r.value;
  }

  /** An empty segment file, open for writing. */
  function NewSegment(seg: nat): (st: Store)
    ensures WellPlaced(st)
  {
    Store(map[seg := []], [], seg, true, 0)
  }

  /** The first record of a new segment. */
  lemma AddedFirst(seg: nat, f: FrameBytes)
    requires HEADER_SIZE <= |f| <= MAX_FRAME_LEN
    ensures Added(NewSegment(seg), f, SEGMENT)
            == Store(map[seg := Record(f)], [EntryAt(seg, 0, f)], seg, true, RECORD_HEAD + |f|)
  {
    assert [] + Record(f) == Record(f);
  }

  /** The entries of the first two records. */
  lemma AddedTwo(seg: nat, f: FrameBytes, g: FrameBytes)
    requires HEADER_SIZE <= |f| <= MAX_FRAME_LEN && HEADER_SIZE <= |g| <= MAX_FRAME_LEN
    ensures var st := Added(Added(NewSegment(seg), f, SEGMENT), g, SEGMENT);
            st.index == [EntryAt(seg, 0, f), EntryAt(seg, RECORD_HEAD + |f|, g)] && st.curOpen && st.curSeg == seg
  {
    hide EntryAt;
    AddedFirst(seg, f);
  }

  /** A new WAL with one frame. */
  method OneAppended(f: FrameBytes) returns (w: Wal)
    requires WellFormed(f)
    ensures |f| >= HEADER_SIZE && fresh(w) && w.Valid() && w.log == [Stamped(f, 1)] && w.acked == 0
    ensures w.Phys() == Added(NewSegment(0), Stamped(f, 1), SEGMENT) && w.segSize == SEGMENT
    ensures w.saved == NO_CHECKPOINT && w.cp == NO_CHECKPOINT.(nextSeq := 2)
  {
    hide Stamped, Wal.Valid, Wal.Abs, Wal.Phys, WellFormed, SeqOf, WellPlaced, Added, NewSegment;
    w := NewWal();
    FitsSegment(f);
    w.AppendOne(f);
    assert [] + [Stamped(f, 1)] == [Stamped(f, 1)];
  }

  /** Its only frame is committed, up to the removal of the segment. */
  method FirstCommitted(f: FrameBytes) returns (w: Wal)
    requires WellFormed(f)
    ensures |f| >= HEADER_SIZE && fresh(w)
    ensures w.log == [Stamped(f, 1)] && w.Pending() == 0 && w.segs == map[] && w.saved == NO_CHECKPOINT
    ensures w.cp.segStart == w.End() && Durable(w.segs, w.saved, w.files, w.cp.segStart, w.End(), [], w.log, 0)
  {
    hide Stamped, Wal.Valid, Wal.Settled, Wal.CrashSafe, Durable, Rescan, WellFormed, SeqOf, EntryAt;
    hide WellPlaced, Added, NewSegment;
    w := OneAppended(f);
    FitsSegment(f);
    AddedFirst(0, Stamped(f, 1));
    ghost var removed := w.Retire();
    w.NoSegments();
  }

  /** A frame is appended, its commit removes the segment, and the process dies before the checkpoint
      is saved. The directory `w` leaves behind is opened as `v`, and the next frame gets the seq of the
      committed one. */
  method ReusesSeq(f: FrameBytes, g: FrameBytes) returns (w: Wal, v: Wal)
    requires WellFormed(f) && WellFormed(g)
    ensures |f| >= HEADER_SIZE && |g| >= HEADER_SIZE && fresh(w) && fresh(v) && w != v
    ensures w.log == [Stamped(f, 1)] && w.Pending() == 0 && w.segs == map[] && w.saved == NO_CHECKPOINT
    ensures v.saved == w.saved && v.segs == w.segs[0 := Record(Stamped(g, 1))] && v.log == w.log + [Stamped(g, 1)]
    ensures v.index == [EntryAt(0, 0, Stamped(g, 1))] && v.Pending() == 1
    ensures SeqOf(Stamped(f, 1)) == SeqOf(Stamped(g, 1)) == 1
  {
    hide Stamped, Wal.Valid, Wal.CrashSafe, Durable, Rescan, SeqOf, EntryAt, Record, WellFormed, Added, WellPlaced;
    w := FirstCommitted(f);
    FitsSegment(g);
    var r := Wal.Open(w.segs, w.saved, SEGMENT, false, w.files, w.cp.segStart, w.End(), [], w.log, 0);
    v := r.value;
    StampedWellFormed(f, 1);
    StampedWellFormed(g, 1);
    assert v.Phys() == NewSegment(0);
    v.AppendOne(g);
    AddedFirst(0, Stamped(g, 1));
  }

  /** Two frames in one segment. */
  method TwoAppended(f: FrameBytes, g: FrameBytes) returns (w: Wal)
    requires WellFormed(f) && WellFormed(g)
    ensures |f| >= HEADER_SIZE && |g| >= HEADER_SIZE && fresh(w) && w.Valid()
    ensures w.Phys() == Added(Added(NewSegment(0), Stamped(f, 1), SEGMENT), Stamped(g, 2), SEGMENT)
    ensures w.log == [Stamped(f, 1)] + [Stamped(g, 2)] && w.acked == 0
    ensures w.cp == NO_CHECKPOINT.(nextSeq := 3)
  {
    hide Stamped, Wal.Valid, Wal.Abs, Wal.Phys, WellFormed, SeqOf, WellPlaced, Added, NewSegment;
    w := OneAppended(f);
    FitsSegment(g);
    w.AppendOne(g);
  }

  /** The first of them is committed and the checkpoint saved. */
  method OneOfTwoCommitted(f: FrameBytes, g: FrameBytes) returns (w: Wal)
    requires WellFormed(f) && WellFormed(g)
    ensures |f| >= HEADER_SIZE && |g| >= HEADER_SIZE && fresh(w) && w.Valid()
    ensures w.log == [Stamped(f, 1)] + [Stamped(g, 2)] && w.Pending() == 1
    ensures w.End() == 1 && w.cp.segStart == 0
    ensures w.saved == Checkpoint(0, 3, 0, RECORD_HEAD + |f|, 0)
  {
    hide Stamped, Wal.Valid, Wal.CrashSafe, Durable, Rescan, WellFormed, SeqOf, EntryAt, WellPlaced, Added, NewSegment;
    w := TwoAppended(f, g);
    FitsSegment(f);
    FitsSegment(g);
    AddedTwo(0, Stamped(f, 1), Stamped(g, 2));
    ghost var second := w.index[1];
    assert w.index[0] == EntryAt(0, 0, Stamped(f, 1)) && w.index[w.acked + 1..] == [second];
    var r := w.Commit(1, true);
    assert w.index[w.acked] == w.index[w.acked..][0] == second;
  }

  /** The second frame is committed too, up to the removal of the segment. */
  method BothCommitted(f: FrameBytes, g: FrameBytes) returns (w: Wal)
    requires WellFormed(f) && WellFormed(g)
    ensures |f| >= HEADER_SIZE && |g| >= HEADER_SIZE && fresh(w)
    ensures w.log == [Stamped(f, 1)] + [Stamped(g, 2)] && w.Pending() == 0 && w.segs == map[]
    ensures w.saved == Checkpoint(0, 3, 0, RECORD_HEAD + |f|, 0)
    ensures w.cp.segStart == w.End() && Durable(w.segs, w.saved, w.files, w.cp.segStart, w.End(), [], w.log, 0)
  {
    hide Stamped, Wal.Valid, Wal.CrashSafe, Durable, Rescan, WellFormed, SeqOf, EntryAt;
    w := OneOfTwoCommitted(f, g);
    ghost var removed := w.Retire();
    w.NoSegments();
  }

  /** A directory whose only record ends where the checkpoint says that all is acknowledged. */
  lemma HiddenRecord(c: Checkpoint, f: FrameBytes, log: seq<FrameBytes>)
    requires WellFormed(f) && SeqOf(f) == |log| + 1 && Numbered(log)
    requires c.segStart == 0 && c.ackedBytes == |Record(f)| && c.nextSeq <= |log| + 2
    ensures Durable(map[0 := Record(f)], c, map[0 := [f]], 0, 1, [], log + [f], 0)
    ensures Rescan(map[0 := [f]], SkipOf(c, 0), 0, 1) == []
  {
    hide WellFormed, SeqOf, Record, EntryAt, FramesOf, Rescan, Segment, EntriesOf;
    OneRecord(f);
    assert (log + [f])[|log|..] == [f];
  }

  lemma OneRecord(f: FrameBytes)
    requires WellFormed(f)
    ensures var files: Files := map[0 := [f]];
            && Covered(files, 0, 1) && FramesOf(files, 0, 1) == [f] && Segment(files[0]) == Record(f)
            && Rescan(files, |Record(f)|, 0, 1) == []
  {
    hide WellFormed, SeqOf, Record, EntryAt;
    var files: Files := map[0 := [f]];
    assert [f][1..] == [] && Segment([f]) == Record(f) + Segment([]) == Record(f);
    assert FramesOf(files, 0, 1) == [f] + FramesOf(files, 1, 1) == [f];
    assert Unacked(0, 0, [f], |Record(f)|) == [];
    assert EntriesOf(files, 1, 1) == [];
  }

  /** Two frames are committed, but only the checkpoint of the first is saved before the process dies with
      their segment removed. The directory `w` leaves behind is opened as `v`, which appends a frame of the
      size of the first; the process dies again, and the directory of `v` is opened as `u`. The frame was
      never committed, but `u` does not know it, and gives its seq away again. */
  method LosesFrame(f: FrameBytes, g: FrameBytes, h: FrameBytes) returns (w: Wal, v: Wal, u: Wal)
    requires WellFormed(f) && WellFormed(g) && WellFormed(h) && |h| == |f|
    ensures |f| >= HEADER_SIZE && |g| >= HEADER_SIZE && |h| >= HEADER_SIZE && w != v && v != u && u != w
    ensures w.log == [Stamped(f, 1), Stamped(g, 2)] && w.Pending() == 0 && w.segs == map[]
    ensures v.saved == w.saved && v.segs == w.segs[0 := Record(Stamped(h, 3))]
    ensures v.log == w.log + [Stamped(h, 3)] && v.Pending() == 1 && v.index == [EntryAt(0, 0, Stamped(h, 3))]
    ensures u.saved == v.saved && u.segs == v.segs && u.log == v.log
    ensures u.index == [] && u.Pending() == 0 && u.cp.nextSeq == 3
  {
    hide Stamped, Wal.Valid, Wal.CrashSafe, Wal.Settled, Wal.Consistent, Durable, Rescan, SeqOf, EntryAt;
    hide Record, WellFormed, Added, WellPlaced, Numbered;
    w := BothCommitted(f, g);
    FitsSegment(h);
    NumberedOf(w.segs, w.saved, w.files, w.cp.segStart, w.End(), [], w.log, 0);
    var r := Wal.Open(w.segs, w.saved, SEGMENT, false, w.files, w.cp.segStart, w.End(), [], w.log, 0);
    v := r.value;
    assert v.Phys() == NewSegment(0);
    v.AppendOne(h);
    AddedFirst(0, Stamped(h, 3));
    StampedWellFormed(h, 3);
    HiddenRecord(v.saved, Stamped(h, 3), w.log);
    assert [] + [Stamped(h, 3)] == [Stamped(h, 3)];
    assert v.files == map[0 := [Stamped(h, 3)]] && v.segs == map[0 := Record(Stamped(h, 3))];
    r := Wal.Open(v.segs, v.saved, SEGMENT, false, v.files, 0, 1, [], v.log, 0);
    u := r.value;
  }

  /** What a scan makes of a directory whose only record is torn behind both its headers. */
  lemma PhantomLoaded(g: FrameBytes, t: nat)
    requires WellFormed(g) && RECORD_HEAD + HEADER_SIZE <= t < |Record(g)|
    ensures var dir: map<nat, seq<Byte>> := map[0 := Record(g)[..t]];
            && LoadedFrom(dir, NO_CHECKPOINT) == Loaded(dir, [EntryAt(0, 0, g)])
            && Resumed(dir, NO_CHECKPOINT) == NO_CHECKPOINT && NewestOf(dir, NO_CHECKPOINT) == 0
            && MaxSeq([EntryAt(0, 0, g)]) == SeqOf(g)
  {
    hide Scan, WellFormed, Record, SeqOf;
    var file := Record(g)[..t];
    var dir: map<nat, seq<Byte>> := map[0 := file];
    assert Alive(dir, 0) == dir && dir.Keys == {0};
    assert [] + file == file;
    ScanTorn(0, [], g, t, 0);
    assert dir[0 := file] == dir;
    assert ScanAll(dir, 1, 1, 0) == Loaded(dir, []);
    assert ScanAll(dir, 0, 1, 0) == Loaded(dir, [EntryAt(0, 0, g)]);
    MaxSeqIs([EntryAt(0, 0, g)], SeqOf(g));
  }

  /** The process dies while it writes the first record of `w`, behind both its headers; the directory is
      opened as `v`. */
  method PhantomOpened(g: FrameBytes, t: nat) returns (w: Wal, v: Wal)
    requires WellFormed(g) && RECORD_HEAD + HEADER_SIZE <= t < |Record(g)|
    ensures |g| >= HEADER_SIZE && fresh(w) && fresh(v) && w != v
    ensures w.log == [] && w.segs == map[0 := []] && v.saved == w.saved && v.segSize == SEGMENT
    ensures var torn := Record(Stamped(g, 1))[..t];
            && v.Phys() == Store(map[0 := torn], [EntryAt(0, 0, Stamped(g, 1))], 0, true, t)
            && v.acked == 0 && v.cp.nextSeq == 2
  {
    hide Wal.Valid, WellFormed, SeqOf, EntryAt, Stamped, Record, LoadedFrom, Resumed, NewestOf, MaxSeq, Durable;
    w := NewWal();
    StampedWellFormed(g, 1);
    var torn := Record(Stamped(g, 1))[..t];
    var dir := w.segs[0 := w.segs[0] + torn];
    assert w.segs[0] + torn == torn && dir == map[0 := torn];
    PhantomLoaded(Stamped(g, 1), t);
    var r := Wal.Open(dir, w.saved, SEGMENT, false, map[], 0, 0, [], [], 0);
    v := r.value;
  }

  /** A directory opened like this has an entry for a frame that was never appended; reading it fails. The next
      frame is appended where the torn record ends. Once the file is long enough, the entry reads the start of
      one frame and what follows it of the other record. */
  method ReadsPhantom(g: FrameBytes, h: FrameBytes, t: nat)
    returns (w: Wal, v: Wal, before: Outcome<seq<FrameData>>, after: Outcome<seq<FrameData>>)
    requires WellFormed(g) && WellFormed(h) && RECORD_HEAD + HEADER_SIZE <= t < |Record(g)|
    ensures |g| >= HEADER_SIZE && |h| >= HEADER_SIZE && fresh(w) && fresh(v) && w != v
    ensures w.log == [] && w.segs == map[0 := []] && v.saved == w.saved
    ensures before == Failed(ReadFailed)
    ensures var torn, whole := Record(Stamped(g, 1))[..t], Record(Stamped(h, 2));
            && v.segs == w.segs[0 := torn + whole]
            && v.index == [EntryAt(0, 0, Stamped(g, 1)), EntryAt(0, t, Stamped(h, 2))] && v.acked == 0
            && after == if t + |whole| < |Record(g)| then Failed(ReadFailed)
                        else Done([FrameData(1, (torn + whole)[RECORD_HEAD..|Record(g)|])])
  {
    hide Wal.Valid, Wal.Abs, WellFormed, SeqOf, EntryAt, Stamped, Record, Durable, Added, ReadAll, Holds;
    FitsSegment(g);
    FitsSegment(h);
    w, v := PhantomOpened(g, t);
    StampedWellFormed(g, 1);
    StampedWellFormed(h, 2);
    before := v.PeekBatch(1);
    PhantomRead(v.segs, Stamped(g, 1));
    assert v.Oldest(1) == [EntryAt(0, 0, Stamped(g, 1))];
    PhantomAdded(v.segs[0], Stamped(g, 1), Stamped(h, 2));
    v.AppendOne(h);
    after := v.PeekBatch(1);
    PhantomRead(v.segs, Stamped(g, 1));
    assert v.Oldest(1) == [EntryAt(0, 0, Stamped(g, 1))];
  }

  lemma PhantomRead(segs: map<nat, seq<Byte>>, g: FrameBytes)
    requires WellFormed(g) && 0 in segs
    ensures ReadAll(segs, [EntryAt(0, 0, g)])
            == if |segs[0]| < |Record(g)| then Failed(ReadFailed)
               else Done([FrameData(SeqOf(g), segs[0][RECORD_HEAD..|Record(g)|])])
  {
    hide WellFormed, Record, SeqOf;
    var es := [EntryAt(0, 0, g)];
    assert es[..0] == [] && |Record(g)| == EndOf(es[0]);
    ReadAllIff(segs, es);
    if Holds(segs, es[0]) {
      assert ReadAll(segs, es).value == [FrameData(es[0].seqNo, BytesAt(segs, es[0]))];
    }
  }

  lemma PhantomAdded(torn: seq<Byte>, g: FrameBytes, h: FrameBytes)
    requires |torn| <= RECORD_HEAD + MAX_FRAME_LEN && HEADER_SIZE <= |h| <= MAX_FRAME_LEN && |g| >= HEADER_SIZE
    ensures Added(Store(map[0 := torn], [EntryAt(0, 0, g)], 0, true, |torn|), h, SEGMENT)
            == Store(map[0 := torn + Record(h)], [EntryAt(0, 0, g), EntryAt(0, |torn|, h)], 0, true, |torn + Record(h)|)
  {
    hide EntryAt, Record;
    assert [EntryAt(0, 0, g)] + [EntryAt(0, |torn|, h)] == [EntryAt(0, 0, g), EntryAt(0, |torn|, h)];
  }

  lemma FitsSegment(f: FrameBytes)
    requires WellFormed(f)
    ensures HEADER_SIZE <= |f| <= MAX_FRAME_LEN
  {
  }

  lemma EmptyDirectory()
    ensures Durable(map[], NO_CHECKPOINT, map[], 0, 0, [], [], 0)
  {
    assert IsSuffix<FrameBytes>([], []);
  }

  function SeqsFrom(first: nat, n: nat): seq<nat> {
    seq(n, i => first + i)
  }

  /** The frames up to the first one that is shorter than a header. */
  function LeadingFrames(frames: seq<FrameBytes>): (r: seq<FrameBytes>)
    ensures |r| <= |frames| && forall f | f in r :: |f| >= HEADER_SIZE
  {
    if frames == [] || |frames[0]| < HEADER_SIZE then [] else [frames[0]] + LeadingFrames(frames[1..])
  }

  /** `frames` with consecutive seqs from `first` on. */
  function StampedFrom(frames: seq<FrameBytes>, first: nat): (r: seq<FrameBytes>)
    requires forall f | f in frames :: |f| >= HEADER_SIZE
    ensures |r| == |frames| && forall f | f in r :: |f| >= HEADER_SIZE
  {
    seq(|frames|, i requires 0 <= i < |frames| => Stamped(frames[i], first + i))
  }

  lemma {:induction false} LeadingIs(frames: seq<FrameBytes>, n: nat)
    requires n <= |frames| && forall j | 0 <= j < n :: |frames[j]| >= HEADER_SIZE
    requires n < |frames| ==> |frames[n]| < HEADER_SIZE
    ensures LeadingFrames(frames) == frames[..n]
  {
    if n > 0 {
      LeadingIs(frames[1..], n - 1);
    }
  }

  lemma StampedFromSnoc(frames: seq<FrameBytes>, f: FrameBytes, first: nat)
    requires |f| >= HEADER_SIZE && forall g | g in frames :: |g| >= HEADER_SIZE
    ensures StampedFrom(frames + [f], first) == StampedFrom(frames, first) + [Stamped(f, first + |frames|)]
  {
  }

  lemma NothingAdded(st: Store, segSize: nat, first: nat, log: seq<FrameBytes>)
    requires WellPlaced(st)
    ensures AddedAll(st, StampedFrom([], first), segSize) == st
    ensures StampedFrom([], first) == [] && log + [] == log
  {
  }

  lemma AllWellFormedSnoc(frames: seq<FrameBytes>, f: FrameBytes)
    ensures AllWellFormed(frames + [f]) <==> AllWellFormed(frames) && WellFormed(f)
  {
    hide WellFormed;
    assert f in frames + [f] && forall g | g in frames :: g in frames + [f];
  }

  lemma OneAdded(st: Store, frames: seq<FrameBytes>, f: FrameBytes, segSize: nat)
    requires WellPlaced(st) && |f| >= HEADER_SIZE && forall g | g in frames :: |g| >= HEADER_SIZE
    ensures AddedAll(st, frames + [f], segSize) == Added(AddedAll(st, frames, segSize), f, segSize)
  {
    assert (frames + [f])[..|frames|] == frames;
  }

  lemma StampedWellFormed(f: FrameBytes, seqNo: nat)
    requires |f| >= HEADER_SIZE && seqNo < 0x1_0000_0000_0000_0000
    ensures |Stamped(f, seqNo)| == |f| && SeqOf(Stamped(f, seqNo)) == seqNo
    ensures WellFormed(f) ==> WellFormed(Stamped(f, seqNo)) && Encodes(Stamped(f, seqNo), seqNo, Stamped(f, seqNo)[3])
  {
    HeaderOfStamped(f, seqNo);
    HeaderOfPrefix(f);
    HeaderOfPrefix(Stamped(f, seqNo));
  }

  lemma AppendedTwice(q: Q.Queue<FrameBytes>, a: seq<FrameBytes>, b: seq<FrameBytes>)
    ensures Q.Appended(Q.Appended(q, a), b) == Q.Appended(q, a + b)
  {
    assert q.log + a + b == q.log + (a + b);
  }
}
