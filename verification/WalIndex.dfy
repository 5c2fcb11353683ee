/** How the index of a WAL relates to the frames in its segment files. */
module WalIndex {
  import opened Bytes
  import opened FrameCodec
  import opened WalScan

  type Files = map<nat, seq<FrameBytes>>

  ghost predicate Covered(files: Files, lo: nat, hi: nat) {
    forall s: nat | lo <= s < hi :: s in files && AllWellFormed(files[s])
  }

  /** The frames of segments `lo..hi - 1` in order. */
  ghost function FramesOf(files: Files, lo: nat, hi: nat): seq<FrameBytes>
    requires Covered(files, lo, hi)
    decreases hi - lo
  {
    if lo >= hi then [] else files[lo] + FramesOf(files, lo + 1, hi)
  }

  ghost function EntriesOf(files: Files, lo: nat, hi: nat): (es: seq<FrameIndex>)
    requires Covered(files, lo, hi)
    ensures |es| == |FramesOf(files, lo, hi)|
    decreases hi - lo
  {
    if lo >= hi then [] else Entries(lo, 0, files[lo]) + EntriesOf(files, lo + 1, hi)
  }

  /** What a scan finds that skips the first `skip` bytes of the oldest segment. */
  ghost function Rescan(files: Files, skip: nat, lo: nat, hi: nat): (es: seq<FrameIndex>)
    requires Covered(files, lo, hi)
    ensures |es| <= |FramesOf(files, lo, hi)|
  {
    if lo >= hi then [] else Unacked(lo, 0, files[lo], skip) + EntriesOf(files, lo + 1, hi)
  }

  ghost predicate IsSuffix<T>(a: seq<T>, b: seq<T>) {
    |a| <= |b| && b[|b| - |a|..] == a
  }

  lemma SuffixOfBoth<T>(a: seq<T>, b: seq<T>, c: seq<T>)
    requires IsSuffix(a, c) && IsSuffix(b, c) && |a| <= |b|
    ensures IsSuffix(a, b)
  {
    assert b == c[|c| - |b|..];
    assert b[|b| - |a|..] == c[|c| - |a|..];
  }

  lemma SuffixSnoc<T>(a: seq<T>, b: seq<T>, x: T)
    requires IsSuffix(a, b)
    ensures IsSuffix(a + [x], b + [x])
  {
  }

  lemma SuffixDrop<T>(a: seq<T>, b: seq<T>, k: nat)
    requires IsSuffix(a, b) && k <= |a|
    ensures IsSuffix(a[k..], b)
  {
    assert b[|b| - |a|..][k..] == b[|b| - |a| + k..];
  }

  // ---------------------------------------------------------------- one segment

  lemma {:induction false} SegmentSnoc(frames: seq<FrameBytes>, f: FrameBytes)
    ensures Segment(frames + [f]) == Segment(frames) + Record(f)
  {
    hide Record;
    if frames == [] {
      assert frames + [f] == [f];
    } else {
      assert (frames + [f])[1..] == frames[1..] + [f];
      SegmentSnoc(frames[1..], f);
    }
  }

  lemma {:induction false} EntriesSnoc(seg: nat, off: nat, frames: seq<FrameBytes>, f: FrameBytes)
    requires AllWellFormed(frames) && WellFormed(f)
    ensures AllWellFormed(frames + [f])
    ensures Entries(seg, off, frames + [f]) == Entries(seg, off, frames) + [EntryAt(seg, off + |Segment(frames)|, f)]
    decreases |frames|
  {
    hide WellFormed, EntryAt, Record;
    if frames == [] {
      assert frames + [f] == [f];
    } else {
      assert (frames + [f])[1..] == frames[1..] + [f];
      EntriesSnoc(seg, off + RECORD_HEAD + |frames[0]|, frames[1..], f);
    }
  }

  lemma {:induction false} UnackedSnoc(seg: nat, off: nat, frames: seq<FrameBytes>, f: FrameBytes, skip: nat)
    requires AllWellFormed(frames) && WellFormed(f) && skip <= off + |Segment(frames)|
    ensures AllWellFormed(frames + [f])
    ensures Unacked(seg, off, frames + [f], skip)
            == Unacked(seg, off, frames, skip) + [EntryAt(seg, off + |Segment(frames)|, f)]
    decreases |frames|
  {
    hide WellFormed, EntryAt, Record;
    if frames == [] {
      assert frames + [f] == [f];
    } else {
      assert (frames + [f])[1..] == frames[1..] + [f];
      UnackedSnoc(seg, off + RECORD_HEAD + |frames[0]|, frames[1..], f, skip);
    }
  }

  /** Nothing is skipped once the scan is past the acknowledged offset. */
  lemma {:induction false} UnackedAll(seg: nat, off: nat, frames: seq<FrameBytes>, skip: nat)
    requires AllWellFormed(frames) && skip <= off
    ensures Unacked(seg, off, frames, skip) == Entries(seg, off, frames)
    decreases |frames|
  {
    hide WellFormed, EntryAt, Record;
    if frames != [] {
      UnackedAll(seg, off + RECORD_HEAD + |frames[0]|, frames[1..], skip);
    }
  }

  lemma {:induction false} UnackedSuffix(seg: nat, off: nat, frames: seq<FrameBytes>, skip: nat)
    requires AllWellFormed(frames)
    ensures IsSuffix(Unacked(seg, off, frames, skip), Entries(seg, off, frames))
    decreases |frames|
  {
    hide WellFormed, EntryAt, Record;
    if frames != [] {
      var end := off + RECORD_HEAD + |frames[0]|;
      if end > skip {
        UnackedAll(seg, end, frames[1..], skip);
      } else {
        UnackedSuffix(seg, end, frames[1..], skip);
      }
    }
  }

  /** Acknowledging up to the end of record `j` leaves exactly the records after it. */
  lemma {:induction false} UnackedAfter(seg: nat, off: nat, frames: seq<FrameBytes>, j: nat)
    requires AllWellFormed(frames) && j < |frames|
    ensures var es := Entries(seg, off, frames);
            var end := es[j].offset + RECORD_HEAD + es[j].length;
            off < end <= off + |Segment(frames)|
            && Unacked(seg, off, frames, end) == es[j + 1..]
    decreases |frames|
  {
    hide WellFormed, EntryAt, Record;
    var next := off + RECORD_HEAD + |frames[0]|;
    var es := Entries(seg, off, frames);
    if j == 0 {
      UnackedAll(seg, next, frames[1..], next);
    } else {
      UnackedAfter(seg, next, frames[1..], j - 1);
      assert es[j + 1..] == Entries(seg, next, frames[1..])[j..];
    }
  }

  /** Where an entry points, the file holds its frame. */
  lemma {:induction false} EntryReads(seg: nat, pre: seq<Byte>, frames: seq<FrameBytes>, j: nat)
    requires AllWellFormed(frames) && j < |frames|
    ensures var e := Entries(seg, |pre|, frames)[j];
            var file := pre + Segment(frames);
            && e.seg == seg && e.length == |frames[j]| && e.seqNo == SeqOf(frames[j])
            && e.offset + RECORD_HEAD + e.length <= |file|
            && file[e.offset + RECORD_HEAD..e.offset + RECORD_HEAD + e.length] == frames[j]
    decreases |frames|
  {
    hide WellFormed, EntryAt, SeqOf;
    var f, rest := frames[0], frames[1..];
    var file, off := pre + Segment(frames), |pre|;
    if j == 0 {
      assert file == pre + ToBE(|f|, RECORD_HEAD) + f + Segment(rest);
      assert file[off + RECORD_HEAD..off + RECORD_HEAD + |f|] == f;
    } else {
      assert file == pre + Record(f) + Segment(rest);
      EntryReads(seg, pre + Record(f), rest, j - 1);
    }
  }

  // ---------------------------------------------------------------- several segments

  lemma {:induction false} SameFiles(files: Files, files': Files, lo: nat, hi: nat)
    requires Covered(files, lo, hi) && forall s: nat | lo <= s < hi :: s in files' && files'[s] == files[s]
    ensures Covered(files', lo, hi)
    ensures FramesOf(files', lo, hi) == FramesOf(files, lo, hi) && EntriesOf(files', lo, hi) == EntriesOf(files, lo, hi)
    decreases hi - lo
  {
    hide WellFormed, EntryAt, Entries, Unacked, Segment;
    if lo < hi {
      SameFiles(files, files', lo + 1, hi);
    }
  }

  /** Appending a frame to the newest segment appends it to the frames and to the index. */
  lemma {:induction false} AppendFrame(files: Files, files': Files, lo: nat, hi: nat, f: FrameBytes)
    requires Covered(files, lo, hi) && lo < hi && WellFormed(f)
    requires files' == files[hi - 1 := files[hi - 1] + [f]]
    ensures Covered(files', lo, hi)
    ensures FramesOf(files', lo, hi) == FramesOf(files, lo, hi) + [f]
    ensures EntriesOf(files', lo, hi)
            == EntriesOf(files, lo, hi) + [EntryAt(hi - 1, |Segment(files[hi - 1])|, f)]
    decreases hi - lo
  {
    hide WellFormed, EntryAt, Entries, Unacked, Segment;
    if lo == hi - 1 {
      EntriesSnoc(lo, 0, files[lo], f);
    } else {
      AppendFrame(files, files', lo + 1, hi, f);
    }
  }

  lemma AppendToRescan(files: Files, files': Files, skip: nat, lo: nat, hi: nat, f: FrameBytes)
    requires Covered(files, lo, hi) && lo < hi && WellFormed(f) && skip <= |Segment(files[lo])|
    requires files' == files[hi - 1 := files[hi - 1] + [f]]
    ensures Covered(files', lo, hi)
    ensures Rescan(files', skip, lo, hi) == Rescan(files, skip, lo, hi) + [EntryAt(hi - 1, |Segment(files[hi - 1])|, f)]
  {
    hide WellFormed, EntryAt, Entries, Unacked, Segment;
    AppendFrame(files, files', lo, hi, f);
    if lo == hi - 1 {
      UnackedSnoc(lo, 0, files[lo], f, skip);
    } else {
      AppendFrame(files, files', lo + 1, hi, f);
    }
  }

  /** A new empty segment adds nothing. */
  lemma {:induction false} AppendSegment(files: Files, files': Files, lo: nat, hi: nat)
    requires Covered(files, lo, hi) && lo <= hi && files' == files[hi := []]
    ensures Covered(files', lo, hi + 1)
    ensures FramesOf(files', lo, hi + 1) == FramesOf(files, lo, hi)
    ensures EntriesOf(files', lo, hi + 1) == EntriesOf(files, lo, hi)
    decreases hi - lo
  {
    hide WellFormed, EntryAt, Entries, Unacked, Segment;
    if lo < hi {
      AppendSegment(files, files', lo + 1, hi);
    } else {
      assert FramesOf(files', lo + 1, hi + 1) == [];
    }
  }

  lemma RescanSuffix(files: Files, skip: nat, lo: nat, hi: nat)
    requires Covered(files, lo, hi)
    ensures IsSuffix(Rescan(files, skip, lo, hi), EntriesOf(files, lo, hi))
    ensures skip == 0 ==> Rescan(files, skip, lo, hi) == EntriesOf(files, lo, hi)
  {
    hide WellFormed, EntryAt, Entries, Unacked, Segment;
    if lo < hi {
      UnackedSuffix(lo, 0, files[lo], skip);
      var a, b, c := Unacked(lo, 0, files[lo], skip), Entries(lo, 0, files[lo]), EntriesOf(files, lo + 1, hi);
      assert (b + c)[|b| - |a|..] == a + c;
      if skip == 0 {
        UnackedAll(lo, 0, files[lo], 0);
      }
    }
  }

  lemma RescanOfRotated(files: Files, skip: nat, lo: nat, hi: nat)
    requires Covered(files, lo, hi) && lo <= hi
    ensures Covered(files[hi := []], lo, hi + 1)
    ensures Rescan(files[hi := []], skip, lo, hi + 1) == Rescan(files, skip, lo, hi)
  {
    hide WellFormed, EntryAt, Entries, Segment;
    AppendSegment(files, files[hi := []], lo, hi);
    if lo < hi {
      AppendSegment(files, files[hi := []], lo + 1, hi);
    }
  }

  /** Forgetting the oldest segment leaves the frames and the index of the others. */
  lemma RemoveOldest(files: Files, lo: nat, hi: nat)
    requires Covered(files, lo, hi) && lo < hi
    ensures Covered(files - {lo}, lo + 1, hi) && |files[lo]| <= |FramesOf(files, lo, hi)|
    ensures FramesOf(files - {lo}, lo + 1, hi) == FramesOf(files, lo + 1, hi) == FramesOf(files, lo, hi)[|files[lo]|..]
    ensures EntriesOf(files - {lo}, lo + 1, hi) == EntriesOf(files, lo + 1, hi)
    ensures EntriesOf(files, lo, hi)[|files[lo]|..] == EntriesOf(files, lo + 1, hi)
    ensures Rescan(files - {lo}, 0, lo + 1, hi) == EntriesOf(files, lo + 1, hi)
  {
    hide WellFormed, EntryAt, Segment, Unacked;
    SameFiles(files, files - {lo}, lo + 1, hi);
    RescanSuffix(files - {lo}, 0, lo + 1, hi);
  }

  /** Entry `j` of the index reads frame `j`. */
  lemma {:induction false} ReadsFrame(files: Files, segs: map<nat, seq<Byte>>, lo: nat, hi: nat, j: nat)
    requires Covered(files, lo, hi) && j < |FramesOf(files, lo, hi)|
    requires forall s: nat | lo <= s < hi :: s in segs && segs[s] == Segment(files[s])
    ensures var e := EntriesOf(files, lo, hi)[j];
            var f := FramesOf(files, lo, hi)[j];
            && lo <= e.seg < hi && e.length == |f| && e.seqNo == SeqOf(f)
            && e.offset + RECORD_HEAD + e.length <= |segs[e.seg]|
            && segs[e.seg][e.offset + RECORD_HEAD..e.offset + RECORD_HEAD + e.length] == f
            && (e.seg == lo <==> j < |files[lo]|)
    decreases hi - lo
  {
    hide WellFormed, EntryAt, Entries, Unacked, Segment;
    if j < |files[lo]| {
      EntryReads(lo, [], files[lo], j);
      assert [] + Segment(files[lo]) == Segment(files[lo]);
    } else {
      ReadsFrame(files, segs, lo + 1, hi, j - |files[lo]|);
    }
  }
}
